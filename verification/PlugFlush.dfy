/** Plugged requests and their dispatch (blk_queue_bio and blk_flush_plug_list of both
    kernels). */
module PlugFlush {
  /** A request: its queue, its position. */
  datatype Request = Request(id: nat, q: nat, pos: nat)

  /** What happens between taking and releasing the lock of a queue: the requests that
      are inserted and those that are ended because the queue is dead, in order; the
      depth that is reported when the queue is unplugged. */
  datatype Visit = Visit(q: nat, inserted: seq<Request>, ended: seq<Request>, depth: nat)

  // ------------------------------------------------------------------------- list_sort

  predicate ByQueue(list: seq<Request>) {
    forall i, j :: 0 <= i < j < |list| ==> list[i].q <= list[j].q
  }

  /** The order of plug_rq_cmp: by queue on nexus5, and then by position on g4. */
  predicate Before(a: Request, b: Request, byPos: bool) {
    a.q < b.q || (a.q == b.q && (byPos ==> a.pos <= b.pos))
  }

  predicate Sorted(list: seq<Request>, byPos: bool) {
    forall i, j :: 0 <= i < j < |list| ==> Before(list[i], list[j], byPos)
  }

  function Insert(r: Request, list: seq<Request>, byPos: bool): (s: seq<Request>)
    ensures multiset(s) == multiset(list) + multiset{r}
  {
    if list == [] || Before(r, list[0], byPos) then
      assert multiset([r] + list) == multiset(list) + multiset{r};
      [r] + list
    else
      assert list == [list[0]] + list[1..];
      [list[0]] + Insert(r, list[1..], byPos)
  }

  /** A sorted list of the same requests. */
  function Sort(list: seq<Request>, byPos: bool): (s: seq<Request>)
    ensures multiset(s) == multiset(list)
  {
    if list == [] then []
    else
      assert list == [list[0]] + list[1..];
      Insert(list[0], Sort(list[1..], byPos), byPos)
  }

  lemma {:induction false} InsertSorts(r: Request, list: seq<Request>, byPos: bool)
    requires Sorted(list, byPos)
    ensures Sorted(Insert(r, list, byPos), byPos)
  {
    if list != [] && !Before(r, list[0], byPos) {
      InsertSorts(r, list[1..], byPos);
      var s := Insert(r, list[1..], byPos);
      forall x | x in s
        ensures Before(list[0], x, byPos)
      {
        assert x in multiset(s);
        assert x in list[1..] || x == r;
      }
    }
  }

  lemma {:induction false} SortSorts(list: seq<Request>, byPos: bool)
    ensures Sorted(Sort(list, byPos), byPos) && multiset(Sort(list, byPos)) == multiset(list)
  {
    if list != [] {
      SortSorts(list[1..], byPos);
      InsertSorts(list[0], Sort(list[1..], byPos), byPos);
    }
  }

  /** The requests of a queue, in order. */
  function OfQueue(list: seq<Request>, q: nat): seq<Request> {
    if list == [] then [] else (if list[0].q == q then [list[0]] else []) + OfQueue(list[1..], q)
  }

  lemma {:induction false} OfQueueBoth(list: seq<Request>, more: seq<Request>, q: nat)
    ensures OfQueue(list + more, q) == OfQueue(list, q) + OfQueue(more, q)
    ensures |list| == 1 ==> OfQueue(list, q) == if list[0].q == q then list else []
  {
    if list == [] {
      assert list + more == more;
    } else {
      var first := if list[0].q == q then [list[0]] else [];
      OfQueueBoth(list[1..], more, q);
      assert (list + more)[0] == list[0] && (list + more)[1..] == list[1..] + more;
      Regroup(first, OfQueue(list[1..], q), OfQueue(more, q));
    }
  }

  lemma {:induction false} InsertIsStable(r: Request, list: seq<Request>, q: nat)
    requires Sorted(list, false)
    ensures OfQueue(Insert(r, list, false), q) == OfQueue([r] + list, q)
  {
    assert ([r] + list)[1..] == list;
    if list != [] && !Before(r, list[0], false) {
      var s := Insert(r, list, false);
      assert s[1..] == Insert(r, list[1..], false);
      InsertIsStable(r, list[1..], q);
      assert ([r] + list[1..])[1..] == list[1..];
    }
  }

  /** Sorting by queue does not reorder the requests of a queue. */
  lemma {:induction false} SortIsStable(list: seq<Request>, q: nat)
    ensures OfQueue(Sort(list, false), q) == OfQueue(list, q)
  {
    if list != [] {
      var rest := Sort(list[1..], false);
      SortSorts(list[1..], false);
      InsertIsStable(list[0], rest, q);
      assert ([list[0]] + rest)[1..] == rest;
      SortIsStable(list[1..], q);
    }
  }

  lemma SortKeepsQueues(list: seq<Request>)
    ensures var s := Sort(list, false);
            ByQueue(s) && multiset(s) == multiset(list) && forall q :: OfQueue(s, q) == OfQueue(list, q)
  {
    SortSorts(list, false);
    forall q: nat
      ensures OfQueue(Sort(list, false), q) == OfQueue(list, q)
    {
      SortIsStable(list, q);
    }
  }

  // -------------------------------------------------------------------------- dispatch

  /** The requests that a visit handles. */
  function Handled(v: Visit): seq<Request> {
    v.inserted + v.ended
  }

  /** All that is handled, in order. */
  function AllHandled(vs: seq<Visit>): seq<Request> {
    if vs == [] then [] else Handled(vs[0]) + AllHandled(vs[1..])
  }

  lemma {:induction false} HandledLast(vs: seq<Visit>, v: Visit)
    ensures AllHandled(vs + [v]) == AllHandled(vs) + Handled(v)
  {
    if vs == [] {
      assert [v][1..] == [];
      assert vs + [v] == [v];
    } else {
      HandledLast(vs[1..], v);
      assert (vs + [v])[1..] == vs[1..] + [v];
      Regroup(Handled(vs[0]), AllHandled(vs[1..]), Handled(v));
    }
  }

  /** Only requests of the queue, all ended if it is dead and all inserted if not, and
      the depth is the number inserted. */
  predicate VisitOk(v: Visit, dead: set<nat>) {
    && v.depth == |v.inserted|
    && (v.q in dead ==> v.inserted == []) && (v.q !in dead ==> v.ended == [])
    && (forall i :: 0 <= i < |v.inserted| ==> v.inserted[i].q == v.q)
    && (forall i :: 0 <= i < |v.ended| ==> v.ended[i].q == v.q)
  }

  /** The locks are taken in increasing order, so each of them once. */
  predicate VisitsOk(vs: seq<Visit>, dead: set<nat>) {
    && (forall i :: 0 <= i < |vs| ==> VisitOk(vs[i], dead))
    && (forall i, j :: 0 <= i < j < |vs| ==> vs[i].q < vs[j].q)
  }

  /** All visits so far are of queues up to q. */
  predicate UpTo(vs: seq<Visit>, q: nat) {
    forall i :: 0 <= i < |vs| ==> vs[i].q <= q
  }

  /** All visits so far are of queues below q. */
  predicate Under(vs: seq<Visit>, q: nat) {
    forall i :: 0 <= i < |vs| ==> vs[i].q < q
  }

  lemma VisitsGrow(vs: seq<Visit>, v: Visit, dead: set<nat>)
    requires VisitsOk(vs, dead) && VisitOk(v, dead) && Under(vs, v.q)
    ensures var ok := VisitsOk(vs + [v], dead); ok && UpTo(vs + [v], v.q)
  {
    var ws := vs + [v];
    forall i | 0 <= i < |ws|
      ensures VisitOk(ws[i], dead) && ws[i].q <= v.q
    {
      assert i < |vs| ==> ws[i] == vs[i];
    }
    forall i, j | 0 <= i < j < |ws|
      ensures ws[i].q < ws[j].q
    {
      assert ws[i] == vs[i] && (j < |vs| ==> ws[j] == vs[j]);
    }
  }

  /** Under the lock of a queue its requests alone are handled, one way or the other. */
  lemma EachLockOnce(vs: seq<Visit>, dead: set<nat>, i: nat)
    requires VisitsOk(vs, dead) && i < |vs|
    ensures vs[i].depth == |vs[i].inserted| && (if vs[i].q in dead then vs[i].inserted == [] else vs[i].ended == [])
    ensures forall r :: r in vs[i].inserted || r in vs[i].ended ==> r.q == vs[i].q
    ensures forall j :: 0 <= j < |vs| && j != i ==> vs[j].q != vs[i].q
  {
    assert VisitOk(vs[i], dead);
  }

  datatype Option<T> = None | Some(value: T)

  /** The loop of blk_flush_plug_list: rest is left of all, and depth requests have been
      inserted under the lock that is held. */
  predicate FlushOk(held: Option<nat>, cur: Visit, visits: seq<Visit>, dead: set<nat>,
                    all: seq<Request>, rest: seq<Request>, depth: nat) {
    && ByQueue(rest) && VisitsOk(visits, dead)
    && (if held == None then visits == [] && all == rest
        else
          && held.value == cur.q && VisitOk(cur.(depth := depth), dead)
          && Under(visits, cur.q)
          && (rest != [] ==> cur.q <= rest[0].q)
          && all == AllHandled(visits) + Handled(cur) + rest)
  }

  lemma RestOf(list: seq<Request>)
    requires ByQueue(list) && list != []
    ensures ByQueue(list[1..]) && (list[1..] != [] ==> list[0].q <= list[1..][0].q)
    ensures list == [list[0]] + list[1..]
  {
  }

  /** A request more is handled under the lock of its queue. */
  lemma FlushNext(cur: Visit, now: Visit, visits: seq<Visit>, dead: set<nat>,
                  all: seq<Request>, list: seq<Request>, depth: nat, after: nat)
    requires list != [] && FlushOk(Some(list[0].q), cur, visits, dead, all, list, depth)
    requires now.q == cur.q && Handled(now) == Handled(cur) + [list[0]] && VisitOk(now.(depth := after), dead)
    ensures FlushOk(Some(list[0].q), now, visits, dead, all, list[1..], after)
  {
    RestOf(list);
    Regroup(AllHandled(visits), Handled(cur), [list[0]]);
    Regroup(AllHandled(visits) + Handled(cur), [list[0]], list[1..]);
  }

  /** The lock of the next request's queue is taken, with nothing done under it yet. */
  lemma LockTaken(visits: seq<Visit>, dead: set<nat>, all: seq<Request>, list: seq<Request>)
    requires list != [] && ByQueue(list) && VisitsOk(visits, dead) && Under(visits, list[0].q)
    requires all == AllHandled(visits) + list
    ensures FlushOk(Some(list[0].q), Visit(list[0].q, [], [], 0), visits, dead, all, list, 0)
  {
    assert AllHandled(visits) + Handled(Visit(list[0].q, [], [], 0)) == AllHandled(visits);
  }

  lemma Regroup<T>(a: seq<T>, b: seq<T>, c: seq<T>)
    ensures a + b + c == a + (b + c)
  {
  }

  /** struct blk_plug, and what is done to the queues. */
  class Plug {
    var list: seq<Request>
    var shouldSort: bool                  // nexus5 only
    var held: Option<nat>                 // the queue_lock that is held
    var cur: Visit                        // while it is held
    var visits: seq<Visit>                // the earlier ones of this flush

    constructor ()
      ensures PlugOk() && list == [] && held == None
    {
      list, shouldSort, held, cur, visits := [], false, None, Visit(0, [], [], 0), [];
    }

    /** Unless the list is to be sorted, all requests are of one queue. */
    predicate PlugOk()
      reads this
    {
      && held == None
      && (!shouldSort ==> forall i, j :: 0 <= i < |list| && 0 <= j < |list| ==> list[i].q == list[j].q)
    }

    method Lock(q: nat)
      requires held == None
      modifies this`held, this`cur
      ensures held == Some(q) && cur == Visit(q, [], [], 0)
    {
      held, cur := Some(q), Visit(q, [], [], 0);
    }

    /** queue_unplugged: it drops the lock. */
    method Unplugged(depth: nat, ghost dead: set<nat>)
      requires held == Some(cur.q)
      requires VisitsOk(visits, dead) && VisitOk(cur.(depth := depth), dead) && Under(visits, cur.q)
      modifies this`held, this`visits
      ensures held == None && visits == old(visits) + [cur.(depth := depth)]
      ensures AllHandled(visits) == AllHandled(old(visits)) + Handled(cur)
      ensures var ok := VisitsOk(visits, dead); ok && UpTo(visits, cur.q)
    {
      HandledLast(visits, cur.(depth := depth));
      VisitsGrow(visits, cur.(depth := depth), dead);
      visits := visits + [cur.(depth := depth)];
      held := None;
    }

    /** A turn of the loop of blk_flush_plug_list, with the lock of the request's queue
        held: the request of a dead queue is ended, any other inserted. */
    method Dispatch(rq: Request, dead: set<nat>) returns (inserted: bool)
      requires held == Some(rq.q) && cur.q == rq.q
      modifies this`cur
      ensures inserted <==> rq.q !in dead
      ensures cur == if rq.q in dead then old(cur).(ended := old(cur).ended + [rq])
                     else old(cur).(inserted := old(cur).inserted + [rq])
    {
      if rq.q in dead {
        cur := cur.(ended := cur.ended + [rq]);
        return false;
      }
      cur := cur.(inserted := cur.inserted + [rq]);
      return true;
    }

    ghost predicate Flushing(dead: set<nat>, all: seq<Request>, rest: seq<Request>, depth: nat)
      reads this
    {
      FlushOk(held, cur, visits, dead, all, rest, depth)
    }

    method DispatchLoop(list0: seq<Request>, dead: set<nat>) returns (depth: nat)
      requires var flushing := Flushing(dead, list0, list0, 0); flushing
      modifies this`held, this`cur, this`visits
      ensures var flushing := Flushing(dead, list0, [], depth); flushing
    {
      var list := list0;
      depth := 0;
      while list != []
        invariant var flushing := Flushing(dead, list0, list, depth); flushing
        decreases |list|
      {
        depth := DispatchFirst(list, depth, dead, list0);
        list := list[1..];
      }
    }

    /** The loop of blk_flush_plug_list, and the unlock behind it: every request is
        handled once, in the order of the list. */
    method DispatchAll(list: seq<Request>, dead: set<nat>)
      requires held == None && visits == [] && ByQueue(list)
      modifies this`held, this`cur, this`visits
      ensures held == None && VisitsOk(visits, dead) && AllHandled(visits) == list
    {
      var depth := DispatchLoop(list, dead);
      if held.Some? {
        Unplugged(depth, dead);
      }
    }

    /** If the request is of another queue, the lock changes. */
    method TakeLock(q: nat, depth0: nat, ghost dead: set<nat>, ghost all: seq<Request>, ghost list: seq<Request>)
      returns (depth: nat)
      requires list != [] && list[0].q == q && (var flushing := Flushing(dead, all, list, depth0); flushing)
      modifies this`held, this`cur, this`visits
      ensures var flushing := Flushing(dead, all, list, depth); flushing && held == Some(q)
    {
      depth := depth0;
      if held == Some(q) {
        return;
      }
      if held.Some? {
        Unplugged(depth, dead);
      }
      LockTaken(visits, dead, all, list);
      depth := 0;
      Lock(q);
    }

    /** A turn of the loop. */
    method DispatchFirst(list: seq<Request>, depth0: nat, dead: set<nat>, ghost all: seq<Request>) returns (depth: nat)
      requires list != [] && (var flushing := Flushing(dead, all, list, depth0); flushing)
      modifies this`held, this`cur, this`visits
      ensures var flushing := Flushing(dead, all, list[1..], depth); flushing && held.Some?
    {
      depth := TakeLock(list[0].q, depth0, dead, all, list);
      ghost var before, was := cur, depth;
      var inserted := Dispatch(list[0], dead);
      if inserted {
        depth := depth + 1;
      }
      FlushNext(before, cur, visits, dead, all, list, was, depth);
    }

    /** blk_queue_bio adds a request to the plug (nexus5), which is flushed before if
        many says that it holds many requests of that queue. */
    method Add(rq: Request, many: bool, dead: set<nat>)
      requires PlugOk()
      modifies this
      ensures PlugOk()
      ensures list == (if many && old(list) != [] then [rq] else old(list) + [rq])
      ensures if many && old(list) != [] then Flushed(old(list), dead)
              else visits == old(visits) &&
                   (shouldSort <==> old(shouldSort) || (old(list) != [] && old(list)[|old(list)| - 1].q != rq.q))
    {
      if list != [] {
        if !shouldSort {
          if list[|list| - 1].q != rq.q {
            shouldSort := true;
          }
        }
        if many {
          Flush(dead);
        }
      }
      list := list + [rq];
    }

    /** Each queue is visited once, and gets its requests in the order they came. */
    ghost predicate Flushed(all: seq<Request>, dead: set<nat>)
      reads this`visits
    {
      && VisitsOk(visits, dead) && multiset(AllHandled(visits)) == multiset(all)
      && forall q :: OfQueue(AllHandled(visits), q) == OfQueue(all, q)
    }

    /** blk_flush_plug_list of nexus5: it sorts only a list that needs it. */
    method Flush(dead: set<nat>)
      requires PlugOk()
      modifies this
      ensures PlugOk() && list == [] && (old(list) != [] ==> !shouldSort)
      ensures Flushed(old(list), dead)
      ensures !old(shouldSort) ==> AllHandled(visits) == old(list)
    {
      visits := [];
      if list == [] {
        return;
      }
      var all := list;
      list := [];
      if shouldSort {
        SortKeepsQueues(all);
        all := Sort(all, false);
        shouldSort := false;
      }
      DispatchAll(all, dead);
    }

    /** blk_flush_plug_list of g4: it always sorts, by position too, and each queue gets
        its requests in the order of their positions. */
    method FlushSorted(dead: set<nat>)
      requires held == None
      modifies this
      ensures held == None && list == []
      ensures VisitsOk(visits, dead) && multiset(AllHandled(visits)) == multiset(old(list))
      ensures var done := AllHandled(visits);
              forall i, j :: 0 <= i < j < |done| ==>
                done[i].q < done[j].q || (done[i].q == done[j].q && done[i].pos <= done[j].pos)
    {
      visits := [];
      if list == [] {
        return;
      }
      var all := list;
      list := [];
      SortSorts(all, true);
      all := Sort(all, true);
      assert forall i, j :: 0 <= i < j < |all| ==> Before(all[i], all[j], true);
      DispatchAll(all, dead);
    }
  }
}
