/** The accounts of request allocation (block/blk-core.c of g4): what is kept by every
    region under queue_lock, in any order of the threads. */
module RequestAccounts {
  /** What elv_may_queue says. */
  datatype May = Maybe | No | Must

  /** A counter, or a flag, for async and for sync. */
  type Counts = s: seq<int> | |s| == 2 witness [0, 0]
  type Flags = s: seq<bool> | |s| == 2 witness [false, false]

  /** Async or sync. */
  type Class = s: nat | s < 2

  /** struct request_list. */
  datatype List = List(count: Counts, full: Flags, starved: Flags)

  /** Where the allocation of a request is: memory is being allocated, or its elevator
      data failed and nr_rqs_elvpriv is still to be corrected, or it is done. */
  datatype Phase = Allocating | Unmarking | Ready

  /** A request or one in the making: its list, its class, REQ_ELVPRIV. */
  datatype Req = Req(list: nat, sync: Class, elvpriv: bool, phase: Phase)

  datatype Queue = Queue(dying: bool, bypass: bool, nrRqs: Counts, nrElvpriv: int, lists: seq<List>)

  datatype Config = Config(nrRequests: nat, congestionOn: nat)

  /** The queue, and the requests that are outstanding, by a name. */
  datatype State = State(q: Queue, reqs: map<nat, Req>)

  // ------------------------------------------------------------------- the accounts

  function OfClass(reqs: map<nat, Req>, s: Class): set<nat> {
    set id | id in reqs && reqs[id].sync == s
  }

  function OfList(reqs: map<nat, Req>, l: nat, s: Class): set<nat> {
    set id | id in reqs && reqs[id].list == l && reqs[id].sync == s
  }

  /** Those that nrElvpriv counts. */
  function Marked(reqs: map<nat, Req>): set<nat> {
    set id | id in reqs && (reqs[id].elvpriv || reqs[id].phase == Unmarking)
  }

  function Sum(lists: seq<List>, s: Class): int {
    if lists == [] then 0 else lists[0].count[s] + Sum(lists[1..], s)
  }

  /** The counters are right for class s and list l. */
  predicate Right(c: Config, st: State, l: nat, s: Class)
    requires l < |st.q.lists|
  {
    && st.q.lists[l].count[s] == |OfList(st.reqs, l, s)|
    && st.q.lists[l].count[s] <= 3 * c.nrRequests / 2
  }

  predicate ReqOk(st: State, id: nat)
    requires id in st.reqs
  {
    var r := st.reqs[id];
    r.list < |st.q.lists| && (r.phase == Unmarking ==> !r.elvpriv)
  }

  predicate ReqsOk(st: State) {
    forall id :: id in st.reqs ==> ReqOk(st, id)
  }

  /** nr_rqs is the sum over the lists, and what is outstanding. */
  predicate Totals(st: State)
  {
    forall s :: 0 <= s < 2 ==> st.q.nrRqs[s] == |OfClass(st.reqs, s)| == Sum(st.q.lists, s)
  }

  predicate ListsRight(c: Config, st: State)
  {
    forall l, s :: 0 <= l < |st.q.lists| && 0 <= s < 2 ==> Right(c, st, l, s)
  }

  predicate Marks(st: State) {
    st.q.nrElvpriv == |Marked(st.reqs)|
  }

  predicate Inv(c: Config, st: State) {
    ReqsOk(st) && Totals(st) && ListsRight(c, st) && Marks(st)
  }

  // -------------------------------------------------------------- regions under the lock

  function SetFull(q: Queue, l: nat, s: Class, full: bool): Queue
    requires l < |q.lists|
  {
    q.(lists := q.lists[l := q.lists[l].(full := q.lists[l].full[s := full])])
  }

  function SetStarved(q: Queue, l: nat, s: Class, starved: bool): Queue
    requires l < |q.lists|
  {
    q.(lists := q.lists[l := q.lists[l].(starved := q.lists[l].starved[s := starved])])
  }

  function SetCount(q: Queue, l: nat, s: Class, count: int): Queue
    requires l < |q.lists|
  {
    q.(lists := q.lists[l := q.lists[l].(count := q.lists[l].count[s := count])])
  }

  /** rq_starved of __get_request. */
  function Starved(q: Queue, l: nat, s: Class): Queue
    requires l < |q.lists|
  {
    if q.lists[l].count[s] == 0 then SetStarved(q, l, s, true) else q
  }

  /** The first region of __get_request: the queue afterwards, and whether it goes on to
      allocate; with the mark REQ_ELVPRIV. */
  datatype Begun = Begun(q: Queue, go: bool, elvpriv: bool)

  function Begin(c: Config, q: Queue, l: nat, s: Class, may: May, batching: bool, init: bool): (b: Begun)
    requires l < |q.lists|
  {
    var count := q.lists[l].count[s];
    var filling := count + 1 >= c.congestionOn && count + 1 >= c.nrRequests;
    if q.dying then Begun(q, false, false)
    else if may == No then Begun(Starved(q, l, s), false, false)
    else if filling && q.lists[l].full[s] && may != Must && !batching then Begun(q, false, false)
    else
      var q1 := if filling then SetFull(q, l, s, true) else q;
      if count >= 3 * c.nrRequests / 2 then Begun(q1, false, false)
      else
        var q2 := SetStarved(SetCount(q1, l, s, count + 1), l, s, false);
        var elvpriv := init && !q.bypass;
        Begun(q2.(nrRqs := q.nrRqs[s := q.nrRqs[s] + 1],
                  nrElvpriv := if elvpriv then q.nrElvpriv + 1 else q.nrElvpriv), true, elvpriv)
  }

  /** __freed_request: the list is not full any more. */
  function Unfull(c: Config, q: Queue, l: nat, s: Class): Queue
    requires l < |q.lists|
  {
    if q.lists[l].count[s] + 1 <= c.nrRequests then SetFull(q, l, s, false) else q
  }

  /** freed_request. */
  function Freed(c: Config, q: Queue, l: nat, s: Class, elvpriv: bool): (r: Queue)
    requires l < |q.lists|
    ensures |r.lists| == |q.lists|
  {
    var q1 := SetCount(q, l, s, q.lists[l].count[s] - 1);
    var q2 := q1.(nrRqs := q.nrRqs[s := q.nrRqs[s] - 1],
                  nrElvpriv := if elvpriv then q.nrElvpriv - 1 else q.nrElvpriv);
    var q3 := Unfull(c, q2, l, s);
    if q.lists[l].starved[1 - s] then Unfull(c, q3, l, 1 - s) else q3
  }

  /** The lists have the same counts, and the queue the same counters. */
  predicate SameCounts(q: Queue, r: Queue) {
    && |r.lists| == |q.lists| && r.nrRqs == q.nrRqs && r.nrElvpriv == q.nrElvpriv
    && forall l :: 0 <= l < |q.lists| ==> r.lists[l].count == q.lists[l].count
  }

  lemma FlagsKeepCounts(c: Config, q: Queue, l: nat, s: Class, b: bool)
    requires l < |q.lists|
    ensures SameCounts(q, SetFull(q, l, s, b))
    ensures SameCounts(q, SetStarved(q, l, s, b))
    ensures SameCounts(q, Starved(q, l, s))
    ensures SameCounts(q, Unfull(c, q, l, s))
  {
  }

  /** The counters of q with one request more, or less, of class s in list l. */
  predicate Counted(q: Queue, r: Queue, l: nat, s: Class, change: int, marks: int)
  {
    && |r.lists| == |q.lists|
    && (forall t :: 0 <= t < 2 ==> r.nrRqs[t] == q.nrRqs[t] + if t == s then change else 0)
    && (forall k, t :: 0 <= k < |q.lists| && 0 <= t < 2 ==>
          r.lists[k].count[t] == q.lists[k].count[t] + if k == l && t == s then change else 0)
    && r.nrElvpriv == q.nrElvpriv + marks
  }

  lemma CountSet(q: Queue, l: nat, s: Class, count: int, r: Queue)
    requires l < |q.lists| && r == SetCount(q, l, s, count)
    ensures |r.lists| == |q.lists|
    ensures forall k, t :: 0 <= k < |q.lists| && 0 <= t < 2 ==>
              r.lists[k].count[t] == if k == l && t == s then count else q.lists[k].count[t]
  {
  }

  lemma BeginCounts(c: Config, q: Queue, l: nat, s: Class, may: May, batching: bool, init: bool)
    requires l < |q.lists|
    ensures var b := Begin(c, q, l, s, may, batching, init);
            && (if b.go then Counted(q, b.q, l, s, 1, if b.elvpriv then 1 else 0) else SameCounts(q, b.q))
            && (b.go ==> !q.dying && q.lists[l].count[s] < 3 * c.nrRequests / 2)
            && b.q.dying == q.dying && b.q.bypass == q.bypass
  {
    FlagsKeepCounts(c, q, l, s, true);
    var count := q.lists[l].count[s];
    var filling := count + 1 >= c.congestionOn && count + 1 >= c.nrRequests;
    var q1 := if filling then SetFull(q, l, s, true) else q;
    CountSet(q1, l, s, count + 1, SetCount(q1, l, s, count + 1));
    FlagsKeepCounts(c, SetCount(q1, l, s, count + 1), l, s, false);
  }

  /** When the region goes on, what it marks, and what becomes of the flags. */
  lemma BeginIs(c: Config, q: Queue, l: nat, s: Class, may: May, batching: bool, init: bool)
    requires l < |q.lists|
    ensures var b := Begin(c, q, l, s, may, batching, init);
            var was, now := q.lists[l], b.q.lists[l];
            var fills := was.count[s] + 1 >= c.congestionOn && was.count[s] + 1 >= c.nrRequests;
            var refused := q.dying || may == No || (fills && was.full[s] && may == Maybe && !batching);
            && (b.go <==> !refused && was.count[s] < 3 * c.nrRequests / 2)
            && (b.elvpriv <==> b.go && init && !q.bypass)
            && (now.full[s] <==> was.full[s] || (fills && !refused)) && now.full[1 - s] == was.full[1 - s]
            && (now.starved[s] <==> !b.go && (was.starved[s] || (!q.dying && may == No && was.count[s] == 0)))
            && now.starved[1 - s] == was.starved[1 - s]
            && forall k :: 0 <= k < |q.lists| && k != l ==> b.q.lists[k] == q.lists[k]
  {
  }

  lemma ThenSame(q: Queue, q2: Queue, r: Queue, l: nat, s: Class, change: int, marks: int)
    requires Counted(q, q2, l, s, change, marks) && SameCounts(q2, r)
    ensures Counted(q, r, l, s, change, marks)
  {
  }

  /** freed_request before it looks at who waits. */
  function Dropped(q: Queue, l: nat, s: Class, elvpriv: bool): Queue
    requires l < |q.lists|
  {
    SetCount(q, l, s, q.lists[l].count[s] - 1).(
      nrRqs := q.nrRqs[s := q.nrRqs[s] - 1],
      nrElvpriv := if elvpriv then q.nrElvpriv - 1 else q.nrElvpriv)
  }

  lemma DroppedCounts(q: Queue, l: nat, s: Class, elvpriv: bool)
    requires l < |q.lists|
    ensures Counted(q, Dropped(q, l, s, elvpriv), l, s, -1, if elvpriv then -1 else 0)
  {
    CountSet(q, l, s, q.lists[l].count[s] - 1, SetCount(q, l, s, q.lists[l].count[s] - 1));
  }

  lemma FreedCounts(c: Config, q: Queue, l: nat, s: Class, elvpriv: bool)
    requires l < |q.lists|
    ensures var r := Freed(c, q, l, s, elvpriv);
            Counted(q, r, l, s, -1, if elvpriv then -1 else 0) && r.dying == q.dying && r.bypass == q.bypass
  {
    var q2 := Dropped(q, l, s, elvpriv);
    var marks := if elvpriv then -1 else 0;
    DroppedCounts(q, l, s, elvpriv);
    FlagsKeepCounts(c, q2, l, s, true);
    var q3 := Unfull(c, q2, l, s);
    ThenSame(q, q2, q3, l, s, -1, marks);
    FlagsKeepCounts(c, q3, l, 1 - s, true);
    ThenSame(q, q3, Unfull(c, q3, l, 1 - s), l, s, -1, marks);
  }

  /** A list with room again is not full any more; the other class gains by it only if it
      had starved. */
  lemma FreedIs(c: Config, q: Queue, l: nat, s: Class, elvpriv: bool)
    requires l < |q.lists|
    ensures var was, now := q.lists[l], Freed(c, q, l, s, elvpriv).lists[l];
            && now.starved == was.starved
            && (now.full[s] <==> was.full[s] && was.count[s] > c.nrRequests)
            && (now.full[1 - s] <==> was.full[1 - s] && (!was.starved[1 - s] || was.count[1 - s] >= c.nrRequests))
    ensures forall k :: 0 <= k < |q.lists| && k != l ==> Freed(c, q, l, s, elvpriv).lists[k] == q.lists[k]
  {
    var q2 := Dropped(q, l, s, elvpriv);
    assert q2.lists[l].full == q.lists[l].full && q2.lists[l].count[1 - s] == q.lists[l].count[1 - s];
  }

  lemma {:induction false} SumChanges(q: seq<List>, r: seq<List>, l: nat, s: Class, change: int)
    requires |q| == |r| && l < |q|
    requires forall k :: 0 <= k < |q| ==> r[k].count[s] == q[k].count[s] + if k == l then change else 0
    ensures Sum(r, s) == Sum(q, s) + change
    decreases |q|
  {
    if l > 0 {
      SumChanges(q[1..], r[1..], l - 1, s, change);
    } else {
      SumSame(q[1..], r[1..], s);
    }
  }

  lemma {:induction false} SumSame(q: seq<List>, r: seq<List>, s: Class)
    requires |q| == |r|
    requires forall k :: 0 <= k < |q| ==> r[k].count[s] == q[k].count[s]
    ensures Sum(r, s) == Sum(q, s)
    decreases |q|
  {
    if q != [] {
      SumSame(q[1..], r[1..], s);
    }
  }

  /** A region that changes no counter keeps the accounts. */
  lemma SameKeepsInv(c: Config, st: State, q: Queue)
    requires Inv(c, st) && SameCounts(st.q, q)
    ensures Inv(c, State(q, st.reqs))
  {
    var t := State(q, st.reqs);
    forall id | id in t.reqs
      ensures ReqOk(t, id)
    {
      assert ReqOk(st, id);
    }
    forall s | 0 <= s < 2
      ensures q.nrRqs[s] == Sum(q.lists, s)
    {
      SumSame(st.q.lists, q.lists, s);
    }
    forall l, s | 0 <= l < |q.lists| && 0 <= s < 2
      ensures Right(c, t, l, s)
    {
      assert Right(c, st, l, s);
    }
  }

  /** Class and list have one request more, or less, and the sets one name. */
  lemma TotalsChange(st: State, q: Queue, reqs: map<nat, Req>, id: nat, l: nat, s: Class, change: int, marks: int)
    requires l < |st.q.lists| && Totals(st) && Counted(st.q, q, l, s, change, marks)
    requires forall t :: 0 <= t < 2 ==>
               |OfClass(reqs, t)| == |OfClass(st.reqs, t)| + if t == s then change else 0
    ensures Totals(State(q, reqs))
  {
    forall t | 0 <= t < 2
      ensures q.nrRqs[t] == |OfClass(reqs, t)| == Sum(q.lists, t)
    {
      SumChanges(st.q.lists, q.lists, l, t, if t == s then change else 0);
    }
  }

  lemma ListsChange(c: Config, st: State, q: Queue, reqs: map<nat, Req>, l: nat, s: Class, change: int, marks: int)
    requires l < |st.q.lists| && ListsRight(c, st) && Counted(st.q, q, l, s, change, marks)
    requires change <= 0 || st.q.lists[l].count[s] + change <= 3 * c.nrRequests / 2
    requires forall k, t :: 0 <= k < |st.q.lists| && 0 <= t < 2 ==>
               |OfList(reqs, k, t)| == |OfList(st.reqs, k, t)| + if k == l && t == s then change else 0
    ensures ListsRight(c, State(q, reqs))
  {
    forall k, t | 0 <= k < |q.lists| && 0 <= t < 2
      ensures Right(c, State(q, reqs), k, t)
    {
      assert Right(c, st, k, t);
    }
  }

  lemma ClassWith(reqs: map<nat, Req>, id: nat, r: Req, t: Class)
    requires id !in reqs
    ensures |OfClass(reqs[id := r], t)| == |OfClass(reqs, t)| + if t == r.sync then 1 else 0
  {
    assert OfClass(reqs[id := r], t) == if t == r.sync then OfClass(reqs, t) + {id} else OfClass(reqs, t);
  }

  lemma ListWith(reqs: map<nat, Req>, id: nat, r: Req, k: nat, t: Class)
    requires id !in reqs
    ensures |OfList(reqs[id := r], k, t)| == |OfList(reqs, k, t)| + if k == r.list && t == r.sync then 1 else 0
  {
    var was, now := OfList(reqs, k, t), OfList(reqs[id := r], k, t);
    forall i | i != id
      ensures i in now <==> i in was
    {
    }
    if k == r.list && t == r.sync {
      assert now == was + {id};
    } else {
      assert now == was;
    }
  }

  lemma MarkedWith(reqs: map<nat, Req>, id: nat, r: Req)
    requires id !in reqs && r.phase != Unmarking
    ensures |Marked(reqs[id := r])| == |Marked(reqs)| + if r.elvpriv then 1 else 0
  {
    assert Marked(reqs[id := r]) == if r.elvpriv then Marked(reqs) + {id} else Marked(reqs);
  }

  function Less(reqs: map<nat, Req>, id: nat): map<nat, Req> {
    map i | i in reqs && i != id :: reqs[i]
  }

  /** A request more in the accounts. */
  lemma AddKeepsInv(c: Config, st: State, q: Queue, id: nat, r: Req)
    requires Inv(c, st) && id !in st.reqs && r.list < |st.q.lists| && r.phase == Allocating
    requires Counted(st.q, q, r.list, r.sync, 1, if r.elvpriv then 1 else 0)
    requires st.q.lists[r.list].count[r.sync] < 3 * c.nrRequests / 2
    ensures Inv(c, State(q, st.reqs[id := r]))
  {
    var reqs, marks := st.reqs[id := r], if r.elvpriv then 1 else 0;
    forall t: Class
      ensures |OfClass(reqs, t)| == |OfClass(st.reqs, t)| + if t == r.sync then 1 else 0
    {
      ClassWith(st.reqs, id, r, t);
    }
    forall k: nat, t: Class | k < |st.q.lists|
      ensures |OfList(reqs, k, t)| == |OfList(st.reqs, k, t)| + if k == r.list && t == r.sync then 1 else 0
    {
      ListWith(st.reqs, id, r, k, t);
    }
    MarkedWith(st.reqs, id, r);
    TotalsChange(st, q, reqs, id, r.list, r.sync, 1, marks);
    ListsChange(c, st, q, reqs, r.list, r.sync, 1, marks);
    forall i | i in reqs
      ensures ReqOk(State(q, reqs), i)
    {
      assert i != id ==> ReqOk(st, i);
    }
  }

  /** A request that is freed was counted. */
  lemma WasCounted(c: Config, st: State, id: nat)
    requires Inv(c, st) && id in st.reqs
    ensures ReqOk(st, id)
    ensures var r := st.reqs[id];
            && st.q.nrRqs[r.sync] > 0 && st.q.lists[r.list].count[r.sync] > 0
            && (r.elvpriv || r.phase == Unmarking ==> st.q.nrElvpriv != 0)
  {
    assert ReqOk(st, id);
    var r := st.reqs[id];
    assert id in OfClass(st.reqs, r.sync) && id in OfList(st.reqs, r.list, r.sync);
    assert Right(c, st, r.list, r.sync);
    assert r.elvpriv || r.phase == Unmarking ==> id in Marked(st.reqs);
  }

  /** A map without a name, with it again, is the map. */
  lemma LessWith(reqs: map<nat, Req>, id: nat)
    requires id in reqs
    ensures Less(reqs, id)[id := reqs[id]] == reqs && id !in Less(reqs, id)
  {
  }

  lemma RemoveKeepsInv(c: Config, st: State, q: Queue, id: nat)
    requires Inv(c, st) && id in st.reqs && ReqOk(st, id) && st.reqs[id].phase != Unmarking
    requires var r := st.reqs[id]; Counted(st.q, q, r.list, r.sync, -1, if r.elvpriv then -1 else 0)
    ensures Inv(c, State(q, Less(st.reqs, id)))
  {
    var r, reqs, marks := st.reqs[id], Less(st.reqs, id), if st.reqs[id].elvpriv then -1 else 0;
    LessWith(st.reqs, id);
    forall t: Class
      ensures |OfClass(reqs, t)| == |OfClass(st.reqs, t)| + if t == r.sync then -1 else 0
    {
      ClassWith(reqs, id, r, t);
    }
    forall k: nat, t: Class | k < |st.q.lists|
      ensures |OfList(reqs, k, t)| == |OfList(st.reqs, k, t)| + if k == r.list && t == r.sync then -1 else 0
    {
      ListWith(reqs, id, r, k, t);
    }
    MarkedWith(reqs, id, r);
    TotalsChange(st, q, reqs, id, r.list, r.sync, -1, marks);
    ListsChange(c, st, q, reqs, r.list, r.sync, -1, marks);
    forall i | i in reqs
      ensures ReqOk(State(q, reqs), i)
    {
      assert ReqOk(st, i);
    }
  }

  // ----------------------------------------------------------------------------- runs

  datatype Step =
    | Get(id: nat, list: nat, sync: Class, may: May, batching: bool, init: bool)   // up to the unlock
    | AllocFails(id: nat)                    // fail_alloc
    | AllocDone(id: nat, elvFails: bool)     // a request, with or without elevator data
    | Unmark(id: nat)                        // fail_elvpriv
    | Put(id: nat)                           // the last __blk_put_request
    | Die                                    // blk_cleanup_queue
    | Bypass(on: bool)

  /** Who may do what: a request is in the hands of the one who allocates it, then of
      those who put it away. */
  predicate Enabled(st: State, step: Step) {
    match step
    case Get(id, l, _, _, _, _) => id !in st.reqs && l < |st.q.lists|
    case AllocFails(id) => id in st.reqs && st.reqs[id].phase == Allocating
    case AllocDone(id, elvFails) =>
      id in st.reqs && st.reqs[id].phase == Allocating && (elvFails ==> st.reqs[id].elvpriv)
    case Unmark(id) => id in st.reqs && st.reqs[id].phase == Unmarking
    case Put(id) => id in st.reqs && st.reqs[id].phase == Ready
    case Die => true
    case Bypass(on) => st.q.dying ==> on
  }

  /** The request is freed; if its allocation failed, its list may have starved. */
  function FreedOf(c: Config, st: State, id: nat, failed: bool): State
    requires id in st.reqs
  {
    var r := st.reqs[id];
    if r.list >= |st.q.lists| then st
    else
      var q := Freed(c, st.q, r.list, r.sync, r.elvpriv);
      State(if failed then Starved(q, r.list, r.sync) else q, Less(st.reqs, id))
  }

  function Apply(c: Config, st: State, step: Step): State
    requires Enabled(st, step)
  {
    match step
    case Get(id, l, s, may, batching, init) =>
      var b := Begin(c, st.q, l, s, may, batching, init);
      State(b.q, if b.go then st.reqs[id := Req(l, s, b.elvpriv, Allocating)] else st.reqs)
    case AllocFails(id) => FreedOf(c, st, id, true)
    case AllocDone(id, elvFails) =>
      st.(reqs := st.reqs[id := if elvFails then st.reqs[id].(elvpriv := false, phase := Unmarking)
                                else st.reqs[id].(phase := Ready)])
    case Unmark(id) => State(st.q.(nrElvpriv := st.q.nrElvpriv - 1), st.reqs[id := st.reqs[id].(phase := Ready)])
    case Put(id) => FreedOf(c, st, id, false)
    case Die => st.(q := st.q.(dying := true, bypass := true))
    case Bypass(on) => st.(q := st.q.(bypass := on))
  }

  /** A change of the phase of a request. */
  lemma PhaseKeepsInv(c: Config, st: State, id: nat, r: Req, nrElvpriv: nat)
    requires Inv(c, st) && id in st.reqs
    requires r.list == st.reqs[id].list && r.sync == st.reqs[id].sync && (r.phase == Unmarking ==> !r.elvpriv)
    requires nrElvpriv == |Marked(st.reqs[id := r])|
    ensures Inv(c, State(st.q.(nrElvpriv := nrElvpriv), st.reqs[id := r]))
  {
    var reqs := st.reqs[id := r];
    var t := State(st.q.(nrElvpriv := nrElvpriv), reqs);
    forall i | i in reqs
      ensures ReqOk(t, i)
    {
      assert ReqOk(st, i);
      assert ReqOk(st, id);
    }
    forall s | 0 <= s < 2
      ensures OfClass(reqs, s) == OfClass(st.reqs, s)
    {
    }
    forall l, s | 0 <= l < |t.q.lists| && 0 <= s < 2
      ensures Right(c, t, l, s)
    {
      assert OfList(reqs, l, s) == OfList(st.reqs, l, s);
      assert Right(c, st, l, s);
    }
  }

  lemma FlagsKeepInv(c: Config, st: State, dying: bool, bypass: bool)
    requires Inv(c, st)
    ensures Inv(c, st.(q := st.q.(dying := dying, bypass := bypass)))
  {
    SameKeepsInv(c, st, st.q.(dying := dying, bypass := bypass));
  }

  lemma FreedKeepsInv(c: Config, st: State, id: nat, failed: bool)
    requires Inv(c, st) && id in st.reqs && st.reqs[id].phase != Unmarking
    ensures var inv := Inv(c, FreedOf(c, st, id, failed)); inv
  {
    assert ReqOk(st, id);
    var r := st.reqs[id];
    var q := Freed(c, st.q, r.list, r.sync, r.elvpriv);
    FreedCounts(c, st.q, r.list, r.sync, r.elvpriv);
    RemoveKeepsInv(c, st, q, id);
    FlagsKeepCounts(c, q, r.list, r.sync, true);
    SameKeepsInv(c, State(q, Less(st.reqs, id)), Starved(q, r.list, r.sync));
  }

  lemma GetKeepsInv(c: Config, st: State, step: Step)
    requires Inv(c, st) && step.Get? && Enabled(st, step)
    ensures var inv := Inv(c, Apply(c, st, step)); inv
  {
    var b := Begin(c, st.q, step.list, step.sync, step.may, step.batching, step.init);
    BeginCounts(c, st.q, step.list, step.sync, step.may, step.batching, step.init);
    if b.go {
      AddKeepsInv(c, st, b.q, step.id, Req(step.list, step.sync, b.elvpriv, Allocating));
    } else {
      SameKeepsInv(c, st, b.q);
    }
  }

  lemma DoneKeepsInv(c: Config, st: State, id: nat, elvFails: bool)
    requires Inv(c, st) && Enabled(st, AllocDone(id, elvFails))
    ensures var inv := Inv(c, Apply(c, st, AllocDone(id, elvFails))); inv
  {
    var r := if elvFails then st.reqs[id].(elvpriv := false, phase := Unmarking) else st.reqs[id].(phase := Ready);
    assert Marked(st.reqs[id := r]) == Marked(st.reqs);
    PhaseKeepsInv(c, st, id, r, st.q.nrElvpriv);
  }

  lemma UnmarkKeepsInv(c: Config, st: State, id: nat)
    requires Inv(c, st) && Enabled(st, Unmark(id))
    ensures var inv := Inv(c, Apply(c, st, Unmark(id))); inv
  {
    WasCounted(c, st, id);
    var r := st.reqs[id].(phase := Ready);
    assert id in Marked(st.reqs);
    assert Marked(st.reqs[id := r]) == Marked(st.reqs) - {id};
    PhaseKeepsInv(c, st, id, r, st.q.nrElvpriv - 1);
  }

  lemma StepKeepsInv(c: Config, st: State, step: Step)
    requires Inv(c, st) && Enabled(st, step)
    ensures var inv := Inv(c, Apply(c, st, step)); inv
  {
    match step
    case Get(_, _, _, _, _, _) => GetKeepsInv(c, st, step);
    case AllocFails(id) => FreedKeepsInv(c, st, id, true);
    case AllocDone(id, elvFails) => DoneKeepsInv(c, st, id, elvFails);
    case Unmark(id) => UnmarkKeepsInv(c, st, id);
    case Put(id) => FreedKeepsInv(c, st, id, false);
    case Die => FlagsKeepInv(c, st, true, true);
    case Bypass(on) => FlagsKeepInv(c, st, st.q.dying, on);
  }

  /** A new queue, of n request lists. */
  function Start(n: nat): State {
    State(Queue(false, true, [0, 0], 0, seq(n, i => List([0, 0], [false, false], [false, false]))), map[])
  }

  lemma StartOk(c: Config, n: nat)
    ensures Inv(c, Start(n))
  {
    var st := Start(n);
    forall s: Class
      ensures OfClass(st.reqs, s) == {} && Sum(st.q.lists, s) == 0
    {
      NoneCounted(st.q.lists, s);
    }
    assert Marked(st.reqs) == {};
    forall l, s: Class | 0 <= l < |st.q.lists|
      ensures OfList(st.reqs, l, s) == {}
    {
    }
  }

  lemma {:induction false} NoneCounted(lists: seq<List>, s: Class)
    requires forall l :: 0 <= l < |lists| ==> lists[l].count[s] == 0
    ensures Sum(lists, s) == 0
  {
    if lists != [] {
      NoneCounted(lists[1..], s);
    }
  }

  predicate Feasible(c: Config, st: State, steps: seq<Step>)
    decreases |steps|
  {
    steps == [] || (Enabled(st, steps[0]) && Feasible(c, Apply(c, st, steps[0]), steps[1..]))
  }

  function After(c: Config, st: State, steps: seq<Step>): State
    requires Feasible(c, st, steps)
    decreases |steps|
  {
    if steps == [] then st else After(c, Apply(c, st, steps[0]), steps[1..])
  }

  /** On every path, successful or not, and in any order, the counters are those of the
      outstanding requests. */
  lemma {:induction false} RunKeepsInv(c: Config, st: State, steps: seq<Step>)
    requires Inv(c, st) && Feasible(c, st, steps)
    ensures var inv := Inv(c, After(c, st, steps)); inv
    decreases |steps|
  {
    if steps != [] {
      StepKeepsInv(c, st, steps[0]);
      RunKeepsInv(c, Apply(c, st, steps[0]), steps[1..]);
    }
  }

  /** The counters that the drain of the whole queue waits for are zero. */
  predicate Drained(q: Queue)
  {
    q.nrElvpriv == 0 && q.nrRqs[0] == 0 && q.nrRqs[1] == 0
  }

  /** Then nothing is outstanding: nothing else can be waiting to be corrected either. */
  lemma DrainedIsEmpty(c: Config, st: State)
    requires Inv(c, st)
    ensures Drained(st.q) <==> st.reqs == map[]
  {
    if Drained(st.q) && st.reqs != map[] {
      var id :| id in st.reqs;
      WasCounted(c, st, id);
    }
    if st.reqs == map[] {
      assert OfClass(st.reqs, 0) == {} && OfClass(st.reqs, 1) == {} && Marked(st.reqs) == {};
    }
  }

  /** Once a dying queue is drained nothing ever becomes outstanding. */
  lemma {:induction false} DrainedForGood(c: Config, st: State, steps: seq<Step>)
    requires Inv(c, st) && st.q.dying && Drained(st.q) && Feasible(c, st, steps)
    ensures After(c, st, steps).reqs == map[] && After(c, st, steps).q.dying
    decreases |steps|
  {
    DrainedIsEmpty(c, st);
    if steps != [] {
      var t := Apply(c, st, steps[0]);
      StepKeepsInv(c, st, steps[0]);
      DyingStaysEmpty(c, st, steps[0]);
      DrainedIsEmpty(c, t);
      DrainedForGood(c, t, steps[1..]);
    }
  }

  lemma DyingStaysEmpty(c: Config, st: State, step: Step)
    requires Enabled(st, step) && st.q.dying && st.reqs == map[]
    ensures Apply(c, st, step).reqs == map[] && Apply(c, st, step).q.dying
  {
    if step.Get? {
      BeginCounts(c, st.q, step.list, step.sync, step.may, step.batching, step.init);
    }
  }
}

/** The same on the fields of the queue. */
module RequestAlloc {
  import opened RequestAccounts

  /** struct request_queue and its request_lists. */
  class RequestQueue {
    const c: Config               // nr_requests and the congestion threshold
    var dying: bool               // QUEUE_FLAG_DYING
    var bypass: bool              // bypass_depth > 0
    var nrRqs: Counts             // nr_rqs
    var nrElvpriv: int            // nr_rqs_elvpriv
    var lists: seq<List>
    ghost var reqs: map<nat, Req>

    constructor (c: Config, n: nat)
      ensures View() == Start(n) && this.c == c
    {
      this.c, dying, bypass, nrRqs, nrElvpriv := c, false, true, [0, 0], 0;
      lists := seq(n, i => List([0, 0], [false, false], [false, false]));
      reqs := map[];
    }

    function Fields(): Queue
      reads this
    {
      Queue(dying, bypass, nrRqs, nrElvpriv, lists)
    }

    ghost function View(): State
      reads this
    {
      State(Fields(), reqs)
    }

    method SetListFull(l: nat, s: Class, full: bool)
      requires l < |lists|
      modifies this`lists
      ensures Fields() == SetFull(old(Fields()), l, s, full)
    {
      lists := lists[l := lists[l].(full := lists[l].full[s := full])];
    }

    /** The congestion test of __get_request: a list about to fill is marked full, and a
        full one only serves who must not wait. */
    method FillList(l: nat, s: Class, may: May, batching: bool) returns (ok: bool)
      requires l < |lists|
      modifies this`lists
      ensures var q := old(Fields());
              var filling := q.lists[l].count[s] + 1 >= c.congestionOn && q.lists[l].count[s] + 1 >= c.nrRequests;
              && ok == !(filling && q.lists[l].full[s] && may != Must && !batching)
              && Fields() == if ok && filling then SetFull(q, l, s, true) else q
    {
      if lists[l].count[s] + 1 >= c.congestionOn {
        if lists[l].count[s] + 1 >= c.nrRequests {
          if !lists[l].full[s] {
            SetListFull(l, s, true);
          } else if may != Must && !batching {
            return false;
          } else {
            assert lists[l].full[s := true] == lists[l].full && lists[l := lists[l]] == lists;
          }
        }
      }
      return true;
    }

    /** __get_request up to the unlock: whether it goes on, and with REQ_ELVPRIV. */
    method BeginGetRequest(l: nat, s: Class, may: May, batching: bool, init: bool, ghost id: nat)
      returns (go: bool, elvpriv: bool)
      requires id !in reqs && l < |lists|
      modifies this
      ensures View() == Apply(c, old(View()), Get(id, l, s, may, batching, init))
      ensures reqs == if go then old(reqs)[id := Req(l, s, elvpriv, Allocating)] else old(reqs)
      ensures nrRqs == if go then old(nrRqs)[s := old(nrRqs[s]) + 1] else old(nrRqs)
      ensures nrElvpriv == if elvpriv then old(nrElvpriv) + 1 else old(nrElvpriv)
      ensures elvpriv <==> go && init && !bypass
      ensures dying == old(dying) && bypass == old(bypass) && (go ==> !dying && may != No)
    {
      go, elvpriv := false, false;
      if dying {
        return;
      }
      if may == No {
        MarkStarved(l, s);
        return;
      }
      var ok := FillList(l, s, may, batching);
      if !ok {
        return;
      }
      if lists[l].count[s] >= 3 * c.nrRequests / 2 {
        return;
      }
      go := true;
      elvpriv := CountRequest(l, s, init, id);
    }

    /** The counters, when a request is to be allocated. */
    method CountRequest(l: nat, s: Class, init: bool, ghost id: nat) returns (elvpriv: bool)
      requires l < |lists|
      modifies this
      ensures Fields() == SetStarved(SetCount(old(Fields()), l, s, old(lists[l].count[s]) + 1), l, s, false).(
                            nrRqs := old(nrRqs)[s := old(nrRqs[s]) + 1],
                            nrElvpriv := if elvpriv then old(nrElvpriv) + 1 else old(nrElvpriv))
      ensures (elvpriv <==> init && !bypass) && reqs == old(reqs)[id := Req(l, s, elvpriv, Allocating)]
    {
      nrRqs := nrRqs[s := nrRqs[s] + 1];
      lists := lists[l := lists[l].(count := lists[l].count[s := lists[l].count[s] + 1])];
      lists := lists[l := lists[l].(starved := lists[l].starved[s := false])];
      elvpriv := init && !bypass;
      if elvpriv {
        nrElvpriv := nrElvpriv + 1;
      }
      reqs := reqs[id := Req(l, s, elvpriv, Allocating)];
    }

    method MarkStarved(l: nat, s: Class)
      requires l < |lists|
      modifies this`lists
      ensures Fields() == Starved(old(Fields()), l, s)
    {
      if lists[l].count[s] == 0 {
        lists := lists[l := lists[l].(starved := lists[l].starved[s := true])];
      }
    }

    /** __freed_request. */
    method FreedInList(l: nat, s: Class)
      requires l < |lists|
      modifies this`lists
      ensures Fields() == Unfull(c, old(Fields()), l, s)
    {
      if lists[l].count[s] + 1 <= c.nrRequests {
        SetListFull(l, s, false);
      }
    }

    /** freed_request. */
    method FreedRequest(l: nat, s: Class, elvpriv: bool)
      requires l < |lists|
      modifies this`lists, this`nrRqs, this`nrElvpriv
      ensures Fields() == Freed(c, old(Fields()), l, s, elvpriv)
      ensures nrRqs == old(nrRqs)[s := old(nrRqs[s]) - 1]
      ensures nrElvpriv == if elvpriv then old(nrElvpriv) - 1 else old(nrElvpriv)
      ensures |lists| == old(|lists|) && lists[l].starved == old(lists[l].starved)
      ensures lists[l].count == old(lists[l].count)[s := old(lists[l].count[s]) - 1]
    {
      ghost var q := Fields();
      DroppedCounts(q, l, s, elvpriv);
      nrRqs := nrRqs[s := nrRqs[s] - 1];
      lists := lists[l := lists[l].(count := lists[l].count[s := lists[l].count[s] - 1])];
      if elvpriv {
        nrElvpriv := nrElvpriv - 1;
      }
      assert Fields() == Dropped(q, l, s, elvpriv);
      FlagsKeepCounts(c, Fields(), l, s, true);
      FreedInList(l, s);
      if lists[l].starved[1 - s] {
        FreedInList(l, 1 - s);
      }
    }

    /** fail_alloc and what follows. */
    method FailAlloc(l: nat, s: Class, elvpriv: bool, ghost id: nat)
      requires id in reqs && l < |lists| && reqs[id] == Req(l, s, elvpriv, Allocating)
      modifies this
      ensures View() == Apply(c, old(View()), AllocFails(id))
      ensures reqs == Less(old(reqs), id) && nrRqs == old(nrRqs)[s := old(nrRqs[s]) - 1]
      ensures nrElvpriv == if elvpriv then old(nrElvpriv) - 1 else old(nrElvpriv)
      ensures lists[l].count == old(lists[l].count)[s := old(lists[l].count[s]) - 1]
      ensures lists[l].starved == old(lists[l].starved)[s := old(lists[l].starved[s]) || old(lists[l].count[s]) == 1]
    {
      FreedRequest(l, s, elvpriv);
      reqs := Less(reqs, id);
      MarkStarved(l, s);
    }

    /** fail_elvpriv, in its region. */
    method FailElvpriv(ghost id: nat)
      requires id in reqs && reqs[id].phase == Unmarking
      modifies this
      ensures View() == Apply(c, old(View()), Unmark(id))
      ensures Fields() == old(Fields()).(nrElvpriv := old(nrElvpriv) - 1)
      ensures reqs == old(reqs)[id := old(reqs[id]).(phase := Ready)]
    {
      nrElvpriv := nrElvpriv - 1;
      reqs := reqs[id := reqs[id].(phase := Ready)];
    }

    /** The end of __blk_put_request, for a request that was allocated here. */
    method PutRequest(l: nat, s: Class, elvpriv: bool, ghost id: nat)
      requires id in reqs && l < |lists| && reqs[id] == Req(l, s, elvpriv, Ready)
      modifies this
      ensures View() == Apply(c, old(View()), Put(id))
      ensures reqs == Less(old(reqs), id) && nrRqs == old(nrRqs)[s := old(nrRqs[s]) - 1]
      ensures nrElvpriv == if elvpriv then old(nrElvpriv) - 1 else old(nrElvpriv)
      ensures lists[l].count == old(lists[l].count)[s := old(lists[l].count[s]) - 1]
      ensures lists[l].starved == old(lists[l].starved)
    {
      FreedRequest(l, s, elvpriv);
      reqs := Less(reqs, id);
    }

    /** A turn of __blk_drain_queue for all requests; other: what is dispatched or in
        flight.  When it says that there is nothing to wait for, nothing is outstanding. */
    method DrainTurn(other: bool) returns (drain: bool)
      requires Inv(c, View())
      ensures !drain ==> reqs == map[]
      ensures drain ==> other || reqs != map[]
    {
      drain := other || nrElvpriv != 0;
      var i := 0;
      while i < 2
        invariant 0 <= i <= 2
        invariant drain == (other || nrElvpriv != 0 || (i > 0 && nrRqs[0] != 0) || (i > 1 && nrRqs[1] != 0))
      {
        drain := drain || nrRqs[i] != 0;
        i := i + 1;
      }
      DrainedIsEmpty(c, View());
    }
  }
}
