/** The checkpoint lists of the jbd2 journal (checkpoint.c), pointers and all.

    A contract `var valid := Valid(); valid` says Valid(), here and in other modules: with
    the let the verifier proves the predicate as one and not conjunct by conjunct, which
    keeps the proofs small. */
module CheckpointLists {
  /** struct journal_head: its links on a checkpoint list. */
  class JournalHead {
    var cpNext: JournalHead?                // b_cpnext
    var cpPrev: JournalHead?                // b_cpprev
    var cpTransaction: Transaction?         // b_cp_transaction
    var inTransaction: bool                 // b_transaction != NULL
    var locked: bool
    var dirty: bool
    var writeError: bool                    // buffer_write_io_error

    constructor ()
      ensures cpTransaction == null
    {
      cpNext, cpPrev, cpTransaction := null, null, null;
      inTransaction, locked, dirty, writeError := true, false, true, false;
    }

    /** The test of __try_to_free_cp_buf. */
    predicate Written()
      reads this`inTransaction, this`locked, this`dirty, this`writeError
    {
      !inTransaction && !locked && !dirty && !writeError
    }
  }

  predicate Distinct<T(==)>(s: seq<T>) {
    forall i, j :: 0 <= i < j < |s| ==> s[i] != s[j]
  }

  predicate Disjoint<T(==)>(s: seq<T>, t: seq<T>) {
    forall i, j :: 0 <= i < |s| && 0 <= j < |t| ==> s[i] != t[j]
  }

  /** s in order is a circular doubly linked list. */
  ghost predicate Ring(s: seq<JournalHead>)
    reads s`cpNext, s`cpPrev
  {
    && (forall i, j :: 0 <= i < |s| && 0 <= j < |s| && j == i + 1 ==> s[i].cpNext == s[j] && s[j].cpPrev == s[i])
    && (s != [] ==> s[|s| - 1].cpNext == s[0] && s[0].cpPrev == s[|s| - 1])
  }

  /** Forwards and backwards, all the way round. */
  lemma RingIs(s: seq<JournalHead>)
    ensures Ring(s) <==> forall i {:trigger s[i]} :: 0 <= i < |s| ==>
                           && s[i].cpNext == (if i == |s| - 1 then s[0] else s[i + 1])
                           && s[i].cpPrev == (if i == 0 then s[|s| - 1] else s[i - 1])
  {
    if Ring(s) {
      forall i | 0 <= i < |s|
        ensures s[i].cpNext == if i == |s| - 1 then s[0] else s[i + 1]
        ensures s[i].cpPrev == if i == 0 then s[|s| - 1] else s[i - 1]
      {
        if i < |s| - 1 {
          assert s[i].cpNext == s[i + 1];
        }
        if i > 0 {
          assert s[i].cpPrev == s[i - 1];
        }
      }
    }
  }

  /** A list pointer points to the first element, if there is one. */
  ghost predicate Head(p: JournalHead?, s: seq<JournalHead>) {
    if s == [] then p == null else p == s[0]
  }

  function Without<T>(s: seq<T>, k: nat): (r: seq<T>)
    requires k < |s|
    ensures |r| == |s| - 1
  {
    s[..k] + s[k + 1..]
  }

  /** Two lists without a common element. */
  ghost predicate Apart<T>(s: seq<T>, t: seq<T>) {
    Distinct(s) && Distinct(t) && Disjoint(s, t)
  }

  lemma ApartWithout<T>(s: seq<T>, t: seq<T>, k: nat)
    requires Apart(s, t) && k < |s|
    ensures Apart(Without(s, k), t) && Apart(t, Without(s, k)) && s[k] !in Without(s, k) && s[k] !in t
  {
  }

  lemma ApartWith<T>(s: seq<T>, t: seq<T>, x: T)
    requires Apart(s, t) && x !in s && x !in t
    ensures Apart([x] + s, t) && Apart(t, [x] + s)
  {
  }

  /** A sequence of distinct elements without x. */
  ghost function Minus<T>(s: seq<T>, x: T): seq<T> {
    if x !in s then s
    else
      var k: nat :| k < |s| && s[k] == x;
      Without(s, k)
  }

  lemma MinusAt<T>(s: seq<T>, k: nat)
    requires Distinct(s) && k < |s|
    ensures Minus(s, s[k]) == Without(s, k)
  {
  }

  lemma WithoutAt<T>(s: seq<T>, k: nat, i: nat)
    requires k < |s| && i < |s| - 1
    ensures Without(s, k)[i] == s[if i < k then i else i + 1]
  {
  }

  lemma InWithout<T>(s: seq<T>, k: nat)
    requires Distinct(s) && k < |s|
    ensures Distinct(Without(s, k))
    ensures forall y :: y in Without(s, k) <==> y in s && y != s[k]
  {
    var r := Without(s, k);
    forall i, j | 0 <= i < j < |r|
      ensures r[i] != r[j]
    {
      WithoutAt(s, k, i);
      WithoutAt(s, k, j);
    }
    forall y | y in r
      ensures y in s && y != s[k]
    {
      var i: nat :| i < |r| && r[i] == y;
      WithoutAt(s, k, i);
    }
    forall y | y in s && y != s[k]
      ensures y in r
    {
      var i: nat :| i < |s| && s[i] == y;
      WithoutAt(s, k, if i < k then i else i - 1);
    }
  }

  lemma InMinus<T>(s: seq<T>, x: T)
    requires Distinct(s)
    ensures Distinct(Minus(s, x))
    ensures forall y :: y in Minus(s, x) <==> y in s && y != x
  {
    if x in s {
      var k: nat :| k < |s| && s[k] == x;
      MinusAt(s, k);
      InWithout(s, k);
    }
  }

  lemma MinusAbsent<T>(s: seq<T>, x: T)
    ensures x !in s ==> Minus(s, x) == s
  {
  }

  lemma Moved<T>(s: seq<T>, t: seq<T>, k: nat)
    requires Distinct(s) && k < |s|
    ensures forall y :: y in Without(s, k) || y in [s[k]] + t <==> y in s || y in t
  {
    MinusAt(s, k);
    InMinus(s, s[k]);
  }

  /** The elements of s that are not in gone, in order. */
  ghost function Staying<T>(s: seq<T>, gone: set<T>): seq<T> {
    if s == [] then [] else (if s[0] in gone then [] else [s[0]]) + Staying(s[1..], gone)
  }

  lemma {:induction false} StayingBoth<T>(s: seq<T>, t: seq<T>, gone: set<T>)
    ensures Staying(s + t, gone) == Staying(s, gone) + Staying(t, gone)
  {
    if s == [] {
      assert s + t == t;
    } else {
      var first := if s[0] in gone then [] else [s[0]];
      StayingBoth(s[1..], t, gone);
      assert (s + t)[0] == s[0] && (s + t)[1..] == s[1..] + t;
      assert first + (Staying(s[1..], gone) + Staying(t, gone)) == (first + Staying(s[1..], gone)) + Staying(t, gone);
    }
  }

  /** Who stays, one by one. */
  lemma {:induction false} InStaying<T>(s: seq<T>, gone: set<T>)
    ensures forall y :: y in Staying(s, gone) <==> y in s && y !in gone
    ensures forall y :: Staying([y], gone) == if y in gone then [] else [y]
  {
    if s != [] {
      InStaying(s[1..], gone);
    }
  }

  lemma {:induction false} StayingSame<T>(s: seq<T>, gone: set<T>, x: T)
    requires x !in s
    ensures Staying(s, gone + {x}) == Staying(s, gone)
  {
    if s != [] {
      StayingSame(s[1..], gone, x);
    }
  }

  lemma {:induction false} StayingAll<T>(s: seq<T>, gone: set<T>)
    requires forall i :: 0 <= i < |s| ==> s[i] !in gone
    ensures Staying(s, gone) == s
  {
    if s != [] {
      StayingAll(s[1..], gone);
    }
  }

  /** A sweep of a list that was s: the elements of kept stay, those of rest have not
      been visited. */
  ghost predicate Sweep<T>(s: seq<T>, kept: seq<T>, rest: seq<T>, gone: set<T>) {
    (forall i :: 0 <= i < |kept| ==> kept[i] !in gone) && kept + Staying(rest, gone) == Staying(s, gone)
  }

  lemma SweepNext<T>(s: seq<T>, kept: seq<T>, rest: seq<T>, gone: set<T>)
    requires Sweep(s, kept, rest, gone) && rest != []
    ensures var sweep := Sweep(s, if rest[0] in gone then kept else kept + [rest[0]], rest[1..], gone); sweep
  {
    assert kept + ([rest[0]] + Staying(rest[1..], gone)) == (kept + [rest[0]]) + Staying(rest[1..], gone);
  }

  lemma SweepSo<T>(s: seq<T>, kept: seq<T>, rest: seq<T>, gone: set<T>)
    requires Sweep(s, kept, rest, gone)
    ensures Staying(kept + rest, gone) == Staying(s, gone)
    ensures rest == [] ==> kept + rest == Staying(s, gone)
  {
    StayingBoth(kept, rest, gone);
    StayingAll(kept, gone);
  }

  /** s is what was visited, and then the rest. */
  ghost predicate Split<T>(s: seq<T>, visited: seq<T>, rest: seq<T>) {
    if visited == [] then s == rest else s != [] && s[0] == visited[0] && Split(s[1..], visited[1..], rest)
  }

  lemma {:induction false} SplitNext<T>(s: seq<T>, visited: seq<T>, rest: seq<T>)
    requires Split(s, visited, rest) && rest != []
    ensures var split := Split(s, visited + [rest[0]], rest[1..]); split
  {
    var more := visited + [rest[0]];
    if visited == [] {
      assert more[1..] == [];
    } else {
      assert more[1..] == visited[1..] + [rest[0]];
      SplitNext(s[1..], visited[1..], rest);
    }
  }

  lemma {:induction false} SplitSo<T>(s: seq<T>, visited: seq<T>, rest: seq<T>)
    requires Split(s, visited, rest)
    ensures visited + rest == s && (rest == [] ==> visited == s)
  {
    if visited != [] {
      SplitSo(s[1..], visited[1..], rest);
    }
  }

  lemma NothingSwept<T>(s: seq<T>, gone: set<T>)
    ensures [] + s == s && Sweep(s, [], s, gone) && Split(s, [], s)
  {
    assert [] + Staying(s, gone) == Staying(s, gone);
  }

  /** The end of a sweep, of all or a part of the list. */
  lemma SweptSo<T>(s: seq<T>, visited: seq<T>, kept: seq<T>, rest: seq<T>, gone: set<T>)
    requires Sweep(s, kept, rest, gone) && Split(s, visited, rest)
    ensures Staying(kept + rest, gone) == Staying(s, gone)
    ensures visited <= s && kept + rest == Staying(visited, gone) + s[|visited|..]
    ensures rest == [] ==> kept + rest == Staying(s, gone) && visited == s
  {
    SweepSo(s, kept, rest, gone);
    SplitSo(s, visited, rest);
    StayingBoth(visited, rest, gone);
    SameBehind(kept, Staying(visited, gone), Staying(rest, gone));
  }

  lemma SameBehind<T>(a: seq<T>, b: seq<T>, z: seq<T>)
    requires a + z == b + z
    ensures a == b
  {
    assert |a + z| == |b + z|;
    assert a == (a + z)[..|a|] && b == (b + z)[..|b|];
  }

  lemma SplitIn<T>(s: seq<T>, visited: seq<T>, rest: seq<T>)
    requires Split(s, visited, rest)
    ensures forall i :: 0 <= i < |rest| ==> rest[i] in s
  {
    SplitSo(s, visited, rest);
    assert forall i :: 0 <= i < |rest| ==> rest[i] == s[|visited| + i];
  }

  /** The next element is nowhere else in a list without repetitions. */
  lemma SplitOnce<T>(s: seq<T>, visited: seq<T>, rest: seq<T>)
    requires Split(s, visited, rest) && rest != [] && Apart(visited, rest)
    ensures |visited| < |s| && s[|visited|] == rest[0]
    ensures forall i :: 0 <= i < |s| && i != |visited| ==> s[i] != rest[0]
  {
    SplitSo(s, visited, rest);
  }

  /** Take s[k] out of its ring. */
  method UnlinkAt(jh: JournalHead, ghost s: seq<JournalHead>, ghost k: nat)
    requires Distinct(s) && Ring(s) && k < |s| && s[k] == jh
    modifies s`cpNext, s`cpPrev
    ensures Ring(Without(s, k))
    ensures jh.cpNext == (if k + 1 < |s| then s[k + 1] else s[0])
  {
    assert jh.cpNext == (if k + 1 < |s| then s[k + 1] else s[0]);
    assert jh.cpPrev == (if k > 0 then s[k - 1] else s[|s| - 1]);
    jh.cpNext.cpPrev := jh.cpPrev;
    jh.cpPrev.cpNext := jh.cpNext;
  }

  /** Put jh before the first element of a ring. */
  method LinkFirst(jh: JournalHead, head: JournalHead?, ghost s: seq<JournalHead>)
    requires Distinct(s) && Ring(s) && Head(head, s) && jh !in s
    modifies s`cpNext, s`cpPrev, jh`cpNext, jh`cpPrev
    ensures Ring([jh] + s)
  {
    if head == null {
      jh.cpNext, jh.cpPrev := jh, jh;
    } else {
      jh.cpNext := head;
      jh.cpPrev := head.cpPrev;
      jh.cpPrev.cpNext := jh;
      jh.cpNext.cpPrev := jh;
    }
  }

  datatype TState = T_RUNNING | T_COMMITTING | T_COMMIT_CALLBACK | T_FINISHED

  class Transaction {
    var checkpointList: JournalHead?        // t_checkpoint_list
    var checkpointIoList: JournalHead?      // t_checkpoint_io_list
    var cpNext: Transaction?                // t_cpnext
    var cpPrev: Transaction?                // t_cpprev
    var state: TState
    ghost var bufs: seq<JournalHead>        // the checkpoint list from its head on
    ghost var io: seq<JournalHead>          // and the checkpoint io list

    constructor ()
      ensures ListsOk() && bufs == io == [] && state == T_RUNNING && cpNext == null
    {
      checkpointList, checkpointIoList, cpNext, cpPrev := null, null, null, null;
      bufs, io, state := [], [], T_RUNNING;
    }

    ghost predicate ListsOk()
      reads this`checkpointList, this`checkpointIoList, this`bufs, this`io
      reads bufs`cpNext, bufs`cpPrev, bufs`cpTransaction, io`cpNext, io`cpPrev, io`cpTransaction
    {
      && Apart(bufs, io)
      && Head(checkpointList, bufs) && Ring(bufs) && (forall i :: 0 <= i < |bufs| ==> bufs[i].cpTransaction == this)
      && Head(checkpointIoList, io) && Ring(io) && (forall i :: 0 <= i < |io| ==> io[i].cpTransaction == this)
    }

    /** __buffer_unlink_first, of the k-th buffer of one of the lists. */
    method UnlinkFirst(jh: JournalHead, ghost s: seq<JournalHead>, ghost k: nat)
      requires Distinct(s) && Ring(s) && k < |s| && s[k] == jh
      requires checkpointList != jh || Head(checkpointList, s)
      modifies this`checkpointList, s`cpNext, s`cpPrev
      ensures Ring(Without(s, k))
      ensures if old(checkpointList) != jh then checkpointList == old(checkpointList)
              else Head(checkpointList, Without(s, k))
      ensures jh.cpNext == if k + 1 < |s| then s[k + 1] else s[0]
    {
      UnlinkAt(jh, s, k);
      if checkpointList == jh {
        checkpointList := jh.cpNext;
        if checkpointList == jh {
          checkpointList := null;
        }
      }
    }

    /** __buffer_unlink, of s[k], for either list. */
    method Unlink(jh: JournalHead, ghost s: seq<JournalHead>, ghost t: seq<JournalHead>, ghost k: nat)
      requires Apart(s, t) && Ring(s) && Ring(t) && k < |s| && s[k] == jh
      requires checkpointList != jh || Head(checkpointList, s)
      requires checkpointIoList != jh || (Head(checkpointIoList, s) && checkpointList != jh)
      modifies this`checkpointList, this`checkpointIoList, s`cpNext, s`cpPrev
      ensures Ring(Without(s, k)) && Ring(t)
      ensures if old(checkpointList) != jh then checkpointList == old(checkpointList)
              else Head(checkpointList, Without(s, k))
      ensures if old(checkpointIoList) != jh then checkpointIoList == old(checkpointIoList)
              else Head(checkpointIoList, Without(s, k))
    {
      UnlinkFirst(jh, s, k);
      if checkpointIoList == jh {
        checkpointIoList := jh.cpNext;
        if checkpointIoList == jh {
          checkpointIoList := null;
        }
      }
    }

    ghost predicate Members()
      reads this`bufs, this`io, bufs`cpTransaction, io`cpTransaction
    {
      && Apart(bufs, io)
      && (forall i :: 0 <= i < |bufs| ==> bufs[i].cpTransaction == this)
      && (forall i :: 0 <= i < |io| ==> io[i].cpTransaction == this)
    }

    ghost method ForgetBuf(k: nat)
      requires Members() && k < |bufs|
      requires Head(checkpointList, Without(bufs, k)) && Ring(Without(bufs, k)) && Head(checkpointIoList, io) && Ring(io)
      modifies this`bufs
      ensures ListsOk() && bufs == Minus(old(bufs), old(bufs[k])) && io == Minus(io, old(bufs[k]))
    {
      ApartWithout(bufs, io, k);
      MinusAt(bufs, k);
      bufs := Without(bufs, k);
    }

    ghost method ForgetIo(k: nat)
      requires Members() && k < |io|
      requires Head(checkpointIoList, Without(io, k)) && Ring(Without(io, k)) && Head(checkpointList, bufs) && Ring(bufs)
      modifies this`io
      ensures ListsOk() && io == Minus(old(io), old(io[k])) && bufs == Minus(bufs, old(io[k]))
    {
      ApartWithout(io, bufs, k);
      MinusAt(io, k);
      io := Without(io, k);
    }

    /** __buffer_unlink leaves the lists without the buffer. */
    method UnlinkBuffer(jh: JournalHead)
      requires (var linked := ListsOk(); linked) && (jh in bufs || jh in io)
      modifies this`checkpointList, this`checkpointIoList, this`bufs, this`io,
               bufs`cpNext, bufs`cpPrev, io`cpNext, io`cpPrev
      ensures (var linked := ListsOk(); linked) && bufs == Minus(old(bufs), jh) && io == Minus(old(io), jh)
    {
      ghost var onIo := jh !in bufs;
      ghost var s, t := if onIo then io else bufs, if onIo then bufs else io;
      ghost var k: nat :| k < |s| && s[k] == jh;
      assert Apart(s, t);
      Unlink(jh, s, t, k);
      if onIo {
        ForgetIo(k);
      } else {
        ForgetBuf(k);
      }
    }

    /** The buffer is off the lists of its transaction. */
    method Release(jh: JournalHead)
      requires (var linked := ListsOk(); linked) && (jh in bufs || jh in io)
      modifies this`checkpointList, this`checkpointIoList, this`bufs, this`io,
               bufs`cpNext, bufs`cpPrev, io`cpNext, io`cpPrev, jh`cpTransaction
      ensures var linked := ListsOk(); linked && bufs == Minus(old(bufs), jh) && io == Minus(old(io), jh) && jh.cpTransaction == null
    {
      UnlinkBuffer(jh);
      InMinus(old(bufs), jh);
      InMinus(old(io), jh);
      jh.cpTransaction := null;
    }

    /** The list that is cleaned, and the other one. */
    ghost function ListOf(onIo: bool): seq<JournalHead>
      reads this`bufs, this`io
    {
      if onIo then io else bufs
    }

    /** A finished transaction has buffers. */
    ghost predicate NotDue()
      reads this`state, this`bufs, this`io
    {
      state == T_FINISHED ==> bufs != [] || io != []
    }

    ghost predicate Among(mine: set<JournalHead>)
      reads this`bufs, this`io
    {
      (forall i :: 0 <= i < |bufs| ==> bufs[i] in mine) && (forall i :: 0 <= i < |io| ==> io[i] in mine)
    }

    /** The buffers that were on the lists are still there, or released. */
    ghost predicate Accounted(mine: set<JournalHead>)
      reads this`bufs, this`io, mine`cpTransaction
    {
      forall y :: y in mine ==> y.cpTransaction == null || (y.cpTransaction == this && (y in bufs || y in io))
    }

    /** What is left of the lists without jh. */
    lemma LeftOver(mine: set<JournalHead>, jh: JournalHead)
      requires Distinct(bufs) && Distinct(io) && (var among := Among(mine); among)
      ensures var b, i := Minus(bufs, jh), Minus(io, jh);
              && (forall k :: 0 <= k < |b| ==> b[k] in mine) && (forall k :: 0 <= k < |i| ==> i[k] in mine)
              && (forall y :: y != jh && (y in bufs || y in io) ==> y in b || y in i)
    {
      InMinus(bufs, jh);
      InMinus(io, jh);
      var b, i := Minus(bufs, jh), Minus(io, jh);
      assert forall k :: 0 <= k < |b| ==> b[k] in b;
      assert forall k :: 0 <= k < |i| ==> i[k] in i;
    }

    /** __try_to_free_cp_buf: 0 if the buffer cannot be released, 2 if it was the last
        one of a finished transaction, which the journal drops then, and 1 otherwise. */
    method TryToFree(jh: JournalHead, ghost mine: set<JournalHead>) returns (ret: nat)
      requires var linked, among, accounted := ListsOk(), Among(mine), Accounted(mine);
               linked && among && accounted && (jh in bufs || jh in io)
      modifies this`checkpointList, this`checkpointIoList, this`bufs, this`io
      modifies mine`cpNext, mine`cpPrev, jh`cpTransaction
      ensures var linked, among, accounted := ListsOk(), Among(mine), Accounted(mine);
              linked && among && accounted
      ensures var written := !jh.inTransaction && !jh.locked && !jh.dirty && !jh.writeError;
              && bufs == (if written then Minus(old(bufs), jh) else old(bufs))
              && io == (if written then Minus(old(io), jh) else old(io))
              && ret == if !written then 0 else if state == T_FINISHED && bufs == [] && io == [] then 2 else 1
    {
      if !jh.Written() {
        return 0;
      }
      LeftOver(mine, jh);
      Release(jh);
      ret := if state == T_FINISHED && checkpointList == null && checkpointIoList == null then 2 else 1;
    }

    lemma AtFirst(jh: JournalHead, onIo: bool, kept: seq<JournalHead>, rest: seq<JournalHead>, mine: set<JournalHead>)
      requires ListsOk() && Among(mine) && ListOf(onIo) == kept + rest && rest != [] && rest[0] == jh
      ensures if |rest| > 1 then jh.cpNext == rest[1] && rest[1] in mine && jh != rest[|rest| - 1] else jh == rest[|rest| - 1]
      ensures kept + [jh] + rest[1..] == ListOf(onIo) && jh in ListOf(onIo)
      ensures Minus(ListOf(onIo), jh) == kept + rest[1..] && Minus(ListOf(!onIo), jh) == ListOf(!onIo)
    {
      var l := ListOf(onIo);
      assert l[|kept|] == jh && (|rest| > 1 ==> l[|kept| + 1] == rest[1] && l[|l| - 1] == rest[|rest| - 1]);
      MinusAt(l, |kept|);
      assert Without(l, |kept|) == kept + rest[1..];
      MinusAbsent(ListOf(!onIo), jh);
    }

    /** A turn of journal_clean_one_cp_list, at the first buffer of rest. */
    method CleanStep(jh: JournalHead, ghost onIo: bool, ghost kept: seq<JournalHead>, ghost rest: seq<JournalHead>,
                     ghost mine: set<JournalHead>)
      returns (ret: nat, nextJh: JournalHead?)
      requires var linked, among, accounted := ListsOk(), Among(mine), Accounted(mine);
               linked && among && accounted && NotDue()
      requires ListOf(onIo) == kept + rest && rest != [] && rest[0] == jh && jh in mine
      modifies this`checkpointList, this`checkpointIoList, this`bufs, this`io
      modifies mine`cpNext, mine`cpPrev, jh`cpTransaction
      ensures var linked, among, accounted := ListsOk(), Among(mine), Accounted(mine);
              linked && among && accounted
      ensures ListOf(!onIo) == old(ListOf(!onIo))
      ensures ListOf(onIo) == (if jh.Written() then kept else kept + [jh]) + rest[1..]
      ensures if |rest| > 1 then nextJh == rest[1] && nextJh in mine && jh != rest[|rest| - 1] else jh == rest[|rest| - 1]
      ensures ret > 0 <==> jh.Written()
      ensures ret == 2 <==> !NotDue()
      ensures ret == 2 ==> |rest| == 1
    {
      AtFirst(jh, onIo, kept, rest, mine);
      nextJh := jh.cpNext;
      ret := TryToFree(jh, mine);
    }

    /** The state of journal_clean_one_cp_list: of what is left of the list kept has been
        visited and rest not; n is how long it was. */
    ghost predicate Cleaning(onIo: bool, n: nat, other: seq<JournalHead>, kept: seq<JournalHead>,
                             rest: seq<JournalHead>, gone: set<JournalHead>, mine: set<JournalHead>, reaped: nat)
      reads this, mine
    {
      && Among(mine) && Accounted(mine) && ListsOk() && ListOf(!onIo) == other
      && ListOf(onIo) == kept + rest && reaped == n - |ListOf(onIo)| && Judged(gone, mine)
    }

    /** The buffers that can be released. */
    ghost predicate Judged(gone: set<JournalHead>, mine: set<JournalHead>)
      reads mine`inTransaction, mine`locked, mine`dirty, mine`writeError
    {
      forall y :: y in mine ==> (y in gone <==> y.Written())
    }

    /** The next and the last buffer to visit. */
    predicate At(jh: JournalHead?, lastJh: JournalHead?, rest: seq<JournalHead>, mine: set<JournalHead>) {
      rest != [] && jh == rest[0] && jh in mine && lastJh == rest[|rest| - 1]
    }

    /** A turn of the loop. */
    method CleanTurn(jh: JournalHead, lastJh: JournalHead?, ghost onIo: bool, ghost n: nat, ghost other: seq<JournalHead>,
                     ghost kept: seq<JournalHead>, ghost rest: seq<JournalHead>, ghost gone: set<JournalHead>,
                     ghost mine: set<JournalHead>, reaped: nat)
      returns (reaped': nat, released: bool, last: bool, nextJh: JournalHead?, ghost kept': seq<JournalHead>, ghost rest': seq<JournalHead>)
      requires (var cleaning := Cleaning(onIo, n, other, kept, rest, gone, mine, reaped); cleaning) && NotDue()
      requires At(jh, lastJh, rest, mine)
      modifies this`checkpointList, this`checkpointIoList, this`bufs, this`io
      modifies mine`cpNext, mine`cpPrev, mine`cpTransaction
      ensures var cleaning := Cleaning(onIo, n, other, kept', rest', gone, mine, reaped'); cleaning
      ensures |rest'| == |rest| - 1 && last == (rest' == []) && (released ==> last)
      ensures !last ==> var at := At(nextJh, lastJh, rest', mine); at
      ensures released == !NotDue()
      ensures kept' == (if jh in gone then kept else kept + [jh]) && rest' == rest[1..]
    {
      var ret;
      ret, nextJh := CleanStep(jh, onIo, kept, rest, mine);
      kept', rest' := if jh in gone then kept else kept + [jh], rest[1..];
      reaped' := if ret > 0 then reaped + 1 else reaped;
      released, last := ret == 2, jh == lastJh;
    }

    /** What the loop knows: of s, kept stay of the visited buffers, and rest is left. */
    ghost predicate Sweeping(onIo: bool, s: seq<JournalHead>, other: seq<JournalHead>, visited: seq<JournalHead>,
                             kept: seq<JournalHead>, rest: seq<JournalHead>, gone: set<JournalHead>,
                             mine: set<JournalHead>, reaped: nat)
      reads this, mine
    {
      Cleaning(onIo, |s|, other, kept, rest, gone, mine, reaped) && Sweep(s, kept, rest, gone) && Split(s, visited, rest)
    }

    /** A turn of the loop, for the sweep. */
    method CleanNext(jh: JournalHead, lastJh: JournalHead?, ghost onIo: bool, ghost s: seq<JournalHead>,
                     ghost other: seq<JournalHead>, ghost visited: seq<JournalHead>, ghost kept: seq<JournalHead>,
                     ghost rest: seq<JournalHead>, ghost gone: set<JournalHead>, ghost mine: set<JournalHead>, reaped: nat)
      returns (reaped': nat, released: bool, last: bool, nextJh: JournalHead?, ghost visited': seq<JournalHead>,
               ghost kept': seq<JournalHead>, ghost rest': seq<JournalHead>)
      requires var sweeping, at := Sweeping(onIo, s, other, visited, kept, rest, gone, mine, reaped), At(jh, lastJh, rest, mine);
               sweeping && at && NotDue()
      modifies this`checkpointList, this`checkpointIoList, this`bufs, this`io
      modifies mine`cpNext, mine`cpPrev, mine`cpTransaction
      ensures var sweeping := Sweeping(onIo, s, other, visited', kept', rest', gone, mine, reaped'); sweeping
      ensures |rest'| == |rest| - 1 && last == (rest' == []) && released == !NotDue() && (released ==> last)
      ensures !last ==> var at := At(nextJh, lastJh, rest', mine); at
    {
      SweepNext(s, kept, rest, gone);
      SplitNext(s, visited, rest);
      visited' := visited + [jh];
      reaped', released, last, nextJh, kept', rest' := CleanTurn(jh, lastJh, onIo, |s|, other, kept, rest, gone, mine, reaped);
    }

    /** The loop of journal_clean_one_cp_list; busy if need_resched may say yes. */
    method CleanLoop(jh0: JournalHead, lastJh: JournalHead?, busy: bool, ghost onIo: bool, ghost s: seq<JournalHead>,
                     ghost other: seq<JournalHead>, ghost gone: set<JournalHead>, ghost mine: set<JournalHead>)
      returns (reaped: nat, released: bool, preempted: bool, ghost visited: seq<JournalHead>,
               ghost kept: seq<JournalHead>, ghost rest: seq<JournalHead>)
      requires var sweeping, at := Sweeping(onIo, s, other, [], [], s, gone, mine, 0), At(jh0, lastJh, s, mine);
               sweeping && at && NotDue()
      modifies this`checkpointList, this`checkpointIoList, this`bufs, this`io
      modifies mine`cpTransaction, mine`cpNext, mine`cpPrev
      ensures var sweeping := Sweeping(onIo, s, other, visited, kept, rest, gone, mine, reaped); sweeping
      ensures released == !NotDue() && (preempted || rest == []) && (preempted ==> busy)
    {
      var jh, done := jh0, false;
      visited, kept, rest, reaped, released, preempted := [], [], s, 0, false, false;
      while !done
        invariant !done ==> var at := At(jh, lastJh, rest, mine); at
        invariant (done ==> preempted || rest == []) && (preempted ==> busy)
        invariant released == !NotDue() && (released ==> done)
        invariant var sweeping := Sweeping(onIo, s, other, visited, kept, rest, gone, mine, reaped); sweeping
        decreases |rest|
      {
        var last;
        reaped, released, last, jh, visited, kept, rest :=
          CleanNext(jh, lastJh, onIo, s, other, visited, kept, rest, gone, mine, reaped);
        if busy {
          preempted := *;
        }
        done := released || preempted || last;
      }
    }

    lemma SweepStarts(onIo: bool, s: seq<JournalHead>, other: seq<JournalHead>, gone: set<JournalHead>, mine: set<JournalHead>)
      requires var linked, among, accounted, judged := ListsOk(), Among(mine), Accounted(mine), Judged(gone, mine);
               linked && among && accounted && judged && s == ListOf(onIo) && other == ListOf(!onIo)
      ensures var sweeping := Sweeping(onIo, s, other, [], [], s, gone, mine, 0); sweeping
    {
      NothingSwept(s, gone);
    }

    lemma AtStart(jh0: JournalHead, onIo: bool, s: seq<JournalHead>, mine: set<JournalHead>)
      requires var linked, among := ListsOk(), Among(mine); linked && among && s == ListOf(onIo) && Head(jh0, s)
      ensures var at := At(jh0, jh0.cpPrev, s, mine); at
    {
    }

    lemma SweepEnds(onIo: bool, s: seq<JournalHead>, other: seq<JournalHead>, visited: seq<JournalHead>,
                    kept: seq<JournalHead>, rest: seq<JournalHead>, gone: set<JournalHead>, mine: set<JournalHead>, reaped: nat)
      requires Sweeping(onIo, s, other, visited, kept, rest, gone, mine, reaped)
      ensures var linked, among, accounted := ListsOk(), Among(mine), Accounted(mine);
              linked && among && accounted && ListOf(!onIo) == other && reaped == |s| - |ListOf(onIo)|
      ensures Staying(ListOf(onIo), gone) == Staying(s, gone)
      ensures visited <= s && ListOf(onIo) == Staying(visited, gone) + s[|visited|..]
      ensures rest == [] ==> ListOf(onIo) == Staying(s, gone) && visited == s
    {
      SweptSo(s, visited, kept, rest, gone);
    }

    /** journal_clean_one_cp_list, on either list: every buffer is visited once, in order,
        unless the processor is wanted; those that can be released are, the others
        stay. */
    method CleanOneCpList(jh0: JournalHead?, busy: bool, ghost onIo: bool, ghost gone: set<JournalHead>, ghost mine: set<JournalHead>)
      returns (reaped: nat, released: bool, preempted: bool, ghost visited: seq<JournalHead>)
      requires var linked, among, accounted := ListsOk(), Among(mine), Accounted(mine);
               linked && among && accounted && Head(jh0, ListOf(onIo)) && NotDue()
      requires forall y :: y in mine ==> (y in gone <==> !y.inTransaction && !y.locked && !y.dirty && !y.writeError)
      modifies this`checkpointList, this`checkpointIoList, this`bufs, this`io
      modifies mine`cpTransaction, mine`cpNext, mine`cpPrev
      ensures var linked, among, accounted := ListsOk(), Among(mine), Accounted(mine);
              linked && among && accounted
      ensures ListOf(!onIo) == old(ListOf(!onIo))
      ensures Staying(ListOf(onIo), gone) == Staying(old(ListOf(onIo)), gone)
      ensures visited <= old(ListOf(onIo)) && ListOf(onIo) == Staying(visited, gone) + old(ListOf(onIo))[|visited|..]
      ensures preempted ==> busy
      ensures preempted || (visited == old(ListOf(onIo)) && ListOf(onIo) == Staying(visited, gone))
      ensures reaped == |old(ListOf(onIo))| - |ListOf(onIo)|
      ensures released <==> !NotDue()
    {
      if jh0 == null {
        return 0, false, false, [];
      }
      ghost var s, other, kept, rest := ListOf(onIo), ListOf(!onIo), [], [];
      SweepStarts(onIo, s, other, gone, mine);
      AtStart(jh0, onIo, s, mine);
      reaped, released, preempted, visited, kept, rest := CleanLoop(jh0, jh0.cpPrev, busy, onIo, s, other, gone, mine);
      SweepEnds(onIo, s, other, visited, kept, rest, gone, mine, reaped);
    }

    /** The buffers are linked, and jh is on neither list. */
    ghost predicate LinkedBut(jh: JournalHead)
      reads this`checkpointList, this`checkpointIoList, this`bufs, this`io, jh`cpTransaction
      reads bufs`cpNext, bufs`cpPrev, bufs`cpTransaction, io`cpNext, io`cpPrev, io`cpTransaction
    {
      ListsOk() && jh !in bufs && jh !in io && jh.cpTransaction == this
    }

    /** __buffer_relink_io. */
    method RelinkIo(jh: JournalHead, ghost k: nat)
      requires (var linked := ListsOk(); linked) && k < |bufs| && bufs[k] == jh
      modifies this`checkpointList, this`checkpointIoList, this`bufs, this`io,
               bufs`cpNext, bufs`cpPrev, io`cpNext, io`cpPrev
      ensures (var linked := ListsOk(); linked) && bufs == Without(old(bufs), k) && io == [jh] + old(io)
    {
      TakeFirst(jh, k);
      PushIo(jh);
    }

    /** The first half of __buffer_relink_io. */
    method TakeFirst(jh: JournalHead, ghost k: nat)
      requires (var linked := ListsOk(); linked) && k < |bufs| && bufs[k] == jh
      modifies this`checkpointList, this`bufs, bufs`cpNext, bufs`cpPrev
      ensures (var linked := LinkedBut(jh); linked) && bufs == Without(old(bufs), k)
    {
      ApartWithout(bufs, io, k);
      UnlinkFirst(jh, bufs, k);
      bufs := Without(bufs, k);
    }

    /** The second half of __buffer_relink_io. */
    method PushIo(jh: JournalHead)
      requires var linked := LinkedBut(jh); linked
      modifies this`checkpointIoList, this`io, io`cpNext, io`cpPrev, jh`cpNext, jh`cpPrev
      ensures (var linked := ListsOk(); linked) && io == [jh] + old(io)
    {
      ApartWith(io, bufs, jh);
      LinkFirst(jh, checkpointIoList, io);
      checkpointIoList := jh;
      io := [jh] + io;
    }

    /** __jbd2_journal_insert_checkpoint. */
    method Insert(jh: JournalHead)
      requires ListsOk() && jh.cpTransaction == null
      modifies this`checkpointList, this`bufs, bufs`cpNext, bufs`cpPrev, jh`cpNext, jh`cpPrev, jh`cpTransaction
      ensures ListsOk() && bufs == [jh] + old(bufs) && io == old(io)
    {
      ApartWith(bufs, io, jh);
      jh.cpTransaction := this;
      LinkFirst(jh, checkpointList, bufs);
      checkpointList := jh;
      bufs := [jh] + bufs;
    }
  }

  // ------------------------------------------------------- the transactions of a journal

  ghost predicate TransactionRing(s: seq<Transaction>)
    reads s`cpNext, s`cpPrev
  {
    && (forall i, j :: 0 <= i < |s| && 0 <= j < |s| && j == i + 1 ==> s[i].cpNext == s[j] && s[j].cpPrev == s[i])
    && (s != [] ==> s[|s| - 1].cpNext == s[0] && s[0].cpPrev == s[|s| - 1])
  }

  /** How many buffers the transactions of a list have, by what each has. */
  ghost function Sum(s: seq<Transaction>, held: map<Transaction, nat>): nat
    requires forall i :: 0 <= i < |s| ==> s[i] in held
  {
    if s == [] then 0 else held[s[0]] + Sum(s[1..], held)
  }

  /** The sum is taken over every element. */
  lemma {:induction false} SumOfBoth(s: seq<Transaction>, t: seq<Transaction>, held: map<Transaction, nat>)
    requires forall i :: 0 <= i < |s| ==> s[i] in held
    requires forall i :: 0 <= i < |t| ==> t[i] in held
    ensures Sum(s + t, held) == Sum(s, held) + Sum(t, held) && (|s| == 1 ==> Sum(s, held) == held[s[0]])
  {
    if s == [] {
      assert s + t == t;
    } else {
      assert (s + t)[1..] == s[1..] + t;
      SumOfBoth(s[1..], t, held);
    }
  }

  /** Only the k-th transaction has another number than before. */
  lemma {:induction false} SumChange(s: seq<Transaction>, k: int, was: map<Transaction, nat>, now: map<Transaction, nat>)
    requires forall i :: 0 <= i < |s| ==> s[i] in was && s[i] in now && (i != k ==> now[s[i]] == was[s[i]])
    ensures Sum(s, now) - Sum(s, was) == if 0 <= k < |s| then now[s[k]] as int - was[s[k]] else 0
    decreases |s|
  {
    if s != [] {
      SumChange(s[1..], k - 1, was, now);
    }
  }

  /** Only the next transaction has another number than before. */
  lemma SumStep(s: seq<Transaction>, visited: seq<Transaction>, rest: seq<Transaction>,
                was: map<Transaction, nat>, now: map<Transaction, nat>)
    requires rest != [] && (var split, apart := Split(s, visited, rest), Apart(visited, rest); split && apart)
    requires forall i :: 0 <= i < |s| ==> s[i] in was && s[i] in now && (s[i] != rest[0] ==> now[s[i]] == was[s[i]])
    ensures rest[0] in was && rest[0] in now && Sum(s, now) - Sum(s, was) == now[rest[0]] as int - was[rest[0]]
  {
    SplitOnce(s, visited, rest);
    SumChange(s, |visited|, was, now);
  }

  class Journal {
    var checkpointTransactions: Transaction?   // j_checkpoint_transactions
    ghost var chps: seq<Transaction>           // that list from its head on
    ghost var all: set<Transaction>            // its transactions, of which some are freed
    ghost var freed: set<Transaction>
    ghost var heads: set<JournalHead>          // the journal heads

    ghost predicate ListOk()
      reads this`checkpointTransactions, this`chps, chps`cpNext, chps`cpPrev
    {
      && Distinct(chps) && TransactionRing(chps)
      && checkpointTransactions == if chps == [] then null else chps[0]
    }

    /** The buffers of a transaction are journal heads of this journal. */
    ghost predicate Owns(t: Transaction)
      reads this`heads, t`bufs, t`io
    {
      (forall i :: 0 <= i < |t.bufs| ==> t.bufs[i] in heads) && (forall i :: 0 <= i < |t.io| ==> t.io[i] in heads)
    }

    /** A finished transaction is on the list exactly while it has buffers, and freed
        when it is not. */
    ghost predicate OnList(t: Transaction)
      reads this`chps, this`freed, t`state, t`bufs, t`io, t`cpNext
    {
      && (t.state == T_FINISHED ==> (t in chps <==> t.bufs != [] || t.io != []))
      && (t in freed <==> t.state == T_FINISHED && t !in chps)
      && (t.state == T_COMMIT_CALLBACK ==> t in chps)
      && (t in chps ==> t.state == T_COMMIT_CALLBACK || t.state == T_FINISHED)
      && (t !in chps && t !in freed ==> t.cpNext == null)
    }

    ghost predicate ListsOk()
      reads this`all, this`heads, all`checkpointList, all`checkpointIoList, all`bufs, all`io
      reads heads`cpNext, heads`cpPrev, heads`cpTransaction
    {
      forall t {:trigger t.ListsOk()} {:trigger Owns(t)} :: t in all ==> Owns(t) && t.ListsOk()
    }

    ghost predicate AllOnList()
      reads this`all, this`chps, this`freed, all`state, all`bufs, all`io, all`cpNext
    {
      (forall i :: 0 <= i < |chps| ==> chps[i] in all) && forall t {:trigger OnList(t)} :: t in all ==> OnList(t)
    }

    /** A buffer that is to be checkpointed is on a list of its transaction. */
    ghost predicate HeadsOk()
      reads this`all, this`heads, heads`cpTransaction, all`bufs, all`io
    {
      && (forall jh :: jh in heads ==> jh.cpTransaction == null || jh.cpTransaction in all)
      && (forall t {:trigger Covers(t)} :: t in all ==> Covers(t))
    }

    ghost predicate Valid()
      reads this, all, heads
    {
      && (var onList := AllOnList(); onList)
      && var list, lists, buffers := ListOk(), ListsOk(), HeadsOk();
         list && lists && buffers
    }

    /** The end of a commit: the transaction goes to the end of the list. */
    method AddTransaction(t: Transaction)
      requires Valid() && t in all && t.state == T_COMMITTING
      modifies this`checkpointTransactions, this`chps, chps`cpNext, chps`cpPrev, t`cpNext, t`cpPrev, t`state
      ensures var valid := Valid(); valid && chps == old(chps) + [t] && t.state == T_COMMIT_CALLBACK
    {
      assert OnList(t);
      t.state := T_COMMIT_CALLBACK;
      LinkLast(t);
      BuffersKept();
      ListGrown(t);
    }

    twostate lemma BuffersKept()
      requires var lists, buffers := old(ListsOk()), old(HeadsOk()); lists && buffers
      requires all == old(all) && heads == old(heads)
      requires unchanged(all`checkpointList, all`checkpointIoList, all`bufs, all`io)
      requires unchanged(heads`cpNext, heads`cpPrev, heads`cpTransaction)
      ensures ListsOk() && HeadsOk()
    {
      forall u | u in all
        ensures Owns(u) && u.ListsOk() && Covers(u)
      {
        assert old(Owns(u)) && old(u.ListsOk()) && old(Covers(u));
      }
    }

    twostate lemma ListGrown(t: Transaction)
      requires old(AllOnList()) && all == old(all) && freed == old(freed) && t in all && t !in old(chps) && t !in freed && chps == old(chps) + [t]
      requires unchanged(all`bufs, all`io) && t.state == T_COMMIT_CALLBACK
      requires forall u :: u in all && u != t ==> u.state == old(u.state)
      requires forall u :: u in all && u !in chps ==> u.cpNext == old(u.cpNext)
      ensures AllOnList()
    {
      forall u | u in all
        ensures OnList(u)
      {
        assert old(OnList(u));
      }
    }

    method LinkLast(t: Transaction)
      requires ListOk() && t !in chps
      modifies this`checkpointTransactions, this`chps, chps`cpNext, chps`cpPrev, t`cpNext, t`cpPrev
      ensures ListOk() && chps == old(chps) + [t]
    {
      if checkpointTransactions == null {
        checkpointTransactions := t;
        t.cpNext, t.cpPrev := t, t;
      } else {
        t.cpNext := checkpointTransactions;
        t.cpPrev := t.cpNext.cpPrev;
        t.cpNext.cpPrev := t;
        t.cpPrev.cpNext := t;
      }
      chps := chps + [t];
    }

    /** The pointers of __jbd2_journal_drop_transaction. */
    method UnlinkTransaction(t: Transaction, ghost s: seq<Transaction>, ghost k: nat)
      requires Distinct(s) && TransactionRing(s) && k < |s| && s[k] == t
      modifies s`cpNext, s`cpPrev
      ensures TransactionRing(Without(s, k))
      ensures t.cpNext == if k + 1 < |s| then s[k + 1] else s[0]
    {
      assert t.cpNext == (if k + 1 < |s| then s[k + 1] else s[0]);
      assert t.cpPrev == (if k > 0 then s[k - 1] else s[|s| - 1]);
      t.cpNext.cpPrev := t.cpPrev;
      t.cpPrev.cpNext := t.cpNext;
    }

    /** __jbd2_journal_drop_transaction, and the transaction is freed. */
    method DropTransaction(t: Transaction, ghost k: nat)
      requires ListOk() && k < |chps| && chps[k] == t
      modifies this`checkpointTransactions, this`chps, this`freed, chps`cpNext, chps`cpPrev
      ensures ListOk() && chps == Without(old(chps), k) && t !in chps && freed == old(freed) + {t}
    {
      ghost var s := chps;
      if t.cpNext != null {
        UnlinkTransaction(t, s, k);
        if checkpointTransactions == t {
          checkpointTransactions := t.cpNext;
        }
        if checkpointTransactions == t {
          checkpointTransactions := null;
        }
      }
      chps := Without(s, k);
      freed := freed + {t};
    }

    /** The transactions are on the list as they should, but t may be finished without
        buffers. */
    ghost predicate DueToDrop(t: Transaction)
      reads this`all, this`chps, this`freed, all`state, all`bufs, all`io, all`cpNext
    {
      && (forall i :: 0 <= i < |chps| ==> chps[i] in all) && t in all && t !in freed
      && (forall u {:trigger OnList(u)} :: u in all && u != t ==> OnList(u))
      && (t in chps <==> t.state == T_COMMIT_CALLBACK || t.state == T_FINISHED)
      && (t !in chps ==> t.cpNext == null)
    }

    /** Take a buffer off the list it is on. */
    method DetachBuffer(jh: JournalHead, t: Transaction)
      requires var onList, lists, buffers := AllOnList(), ListsOk(), HeadsOk();
               onList && lists && buffers && jh in heads && jh.cpTransaction == t
      modifies t`checkpointList, t`checkpointIoList, t`bufs, t`io, jh`cpTransaction
      modifies heads`cpNext, heads`cpPrev
      ensures t.bufs == Minus(old(t.bufs), jh) && t.io == Minus(old(t.io), jh)
      ensures var due, lists, buffers := DueToDrop(t), ListsOk(), HeadsOk();
              due && lists && buffers && jh.cpTransaction == null
    {
      Attached(jh, t);
      t.Release(jh);
      BufferGone(jh);
      StillOnList(t);
    }

    lemma Attached(jh: JournalHead, t: Transaction)
      requires var lists, buffers := ListsOk(), HeadsOk(); lists && buffers && jh in heads && jh.cpTransaction == t
      ensures t in all && (jh in t.bufs || jh in t.io) && var linked := t.ListsOk(); linked
      ensures forall y :: y in t.bufs || y in t.io ==> y in heads
    {
      assert Owns(t) && t.ListsOk() && Covers(t);
    }

    /** Drop a finished transaction without buffers. */
    method DropIfDone(t: Transaction) returns (drop: bool)
      requires var due, list := DueToDrop(t), ListOk();
               due && list && Head(t.checkpointList, t.bufs) && Head(t.checkpointIoList, t.io)
      modifies this`checkpointTransactions, this`chps, this`freed, chps`cpNext, chps`cpPrev
      ensures drop == (t.state == T_FINISHED && t.bufs == [] && t.io == [])
      ensures freed == if drop then old(freed) + {t} else old(freed)
      ensures chps == if drop then Minus(old(chps), t) else old(chps)
      ensures AllOnList() && ListOk()
    {
      if t.checkpointList != null || t.checkpointIoList != null {
        return false;
      }
      if t.state != T_FINISHED {
        return false;
      }
      ghost var k: nat :| k < |chps| && chps[k] == t;
      MinusAt(chps, k);
      InMinus(chps, t);
      DropTransaction(t, k);
      ListShrunk(t);
      return true;
    }

    twostate lemma ListShrunk(t: Transaction)
      requires old(DueToDrop(t)) && all == old(all) && freed == old(freed) + {t} && t.bufs == [] && t.io == []
      requires (forall u :: u in chps <==> u in old(chps) && u != t)
      requires unchanged(all`bufs, all`io, all`state) && t.state == T_FINISHED
      requires forall u :: u in all && u !in old(chps) ==> u.cpNext == old(u.cpNext)
      ensures AllOnList()
    {
      forall i | 0 <= i < |chps|
        ensures chps[i] in all
      {
        assert chps[i] in chps;
      }
      forall u | u in all
        ensures OnList(u)
      {
        assert u != t ==> old(OnList(u));
      }
    }

    /** A transaction is dropped if it has lost its last buffer. */
    method DropEmpty(t: Transaction) returns (drop: bool)
      requires var due, list, lists, buffers := DueToDrop(t), ListOk(), ListsOk(), HeadsOk();
               due && list && lists && buffers
      modifies this`checkpointTransactions, this`chps, this`freed, chps`cpNext, chps`cpPrev
      ensures var valid := Valid(); valid
      ensures drop == (t.state == T_FINISHED && t.bufs == [] && t.io == [])
      ensures freed == if drop then old(freed) + {t} else old(freed)
      ensures chps == if drop then Minus(old(chps), t) else old(chps)
    {
      ListHeads(t);
      drop := DropIfDone(t);
      BuffersKept();
    }

    lemma ListHeads(t: Transaction)
      requires ListsOk() && t in all
      ensures Head(t.checkpointList, t.bufs) && Head(t.checkpointIoList, t.io)
    {
      assert t.ListsOk();
    }

    /** The end of a commit, after its callback. */
    method FinishTransaction(t: Transaction)
      requires (var valid := Valid(); valid) && t in all && t.state == T_COMMIT_CALLBACK
      modifies this`checkpointTransactions, this`chps, this`freed, chps`cpNext, chps`cpPrev, t`state
      ensures var valid := Valid(); valid && t.state == T_FINISHED
      ensures t in freed <==> t.bufs == [] && t.io == []
      ensures chps == if t in freed then Minus(old(chps), t) else old(chps)
    {
      MarkFinished(t);
      var drop := DropEmpty(t);
    }

    method MarkFinished(t: Transaction)
      requires (var valid := Valid(); valid) && t in all && t.state == T_COMMIT_CALLBACK
      modifies t`state
      ensures var due, list, lists, buffers := DueToDrop(t), ListOk(), ListsOk(), HeadsOk();
              due && list && lists && buffers && t.state == T_FINISHED
    {
      assert OnList(t);
      t.state := T_FINISHED;
      BuffersKept();
    }

    /** __jbd2_journal_insert_checkpoint, for the committing transaction. */
    method InsertCheckpoint(jh: JournalHead, t: Transaction)
      requires Valid() && t in all && t.state == T_COMMITTING && jh in heads && jh.cpTransaction == null
      modifies t`checkpointList, t`bufs, heads`cpNext, heads`cpPrev, jh`cpTransaction
      ensures var valid := Valid(); valid && t.bufs == [jh] + old(t.bufs) && jh.cpTransaction == t
    {
      OfValid(t);
      t.Insert(jh);
      assert Covers(t) by {
        assert t.bufs[0] == jh;
        assert forall y :: y in old(t.bufs) ==> y in t.bufs;
      }
      Settled(t);
    }

    /** __buffer_relink_io. */
    method RelinkIo(jh: JournalHead, t: Transaction, ghost k: nat)
      requires (var valid := Valid(); valid) && t in all && k < |t.bufs| && t.bufs[k] == jh
      modifies t`checkpointList, t`checkpointIoList, t`bufs, t`io, heads`cpNext, heads`cpPrev
      ensures var valid := Valid(); valid && t.bufs == Without(old(t.bufs), k) && t.io == [jh] + old(t.io)
    {
      OfValid(t);
      RelinkBuffer(jh, t, k);
      Settled(t);
    }

    method RelinkBuffer(jh: JournalHead, t: Transaction, ghost k: nat)
      requires var owns, linked, onList, covers := Owns(t), t.ListsOk(), OnList(t), Covers(t);
               owns && linked && onList && covers && k < |t.bufs| && t.bufs[k] == jh
      modifies t`checkpointList, t`checkpointIoList, t`bufs, t`io, heads`cpNext, heads`cpPrev
      ensures t.bufs == Without(old(t.bufs), k) && t.io == [jh] + old(t.io)
      ensures var owns, linked, onList, covers := Owns(t), t.ListsOk(), OnList(t), Covers(t);
              owns && linked && onList && covers
      ensures forall y :: y in heads && old(y.cpTransaction) != t ==> y.cpNext == old(y.cpNext) && y.cpPrev == old(y.cpPrev)
    {
      t.RelinkIo(jh, k);
      Moved(old(t.bufs), old(t.io), k);
      StillOwned(t);
    }

    twostate lemma StillOwned(t: Transaction)
      requires (var owns, covers := old(Owns(t)), old(Covers(t)); owns && covers)
      requires heads == old(heads) && unchanged(heads`cpTransaction)
      requires forall y :: y in t.bufs || y in t.io <==> y in old(t.bufs) || y in old(t.io)
      ensures var owns, covers := Owns(t), Covers(t); owns && covers
    {
      forall i | 0 <= i < |t.bufs|
        ensures t.bufs[i] in heads
      {
        assert t.bufs[i] in t.bufs;
      }
      forall i | 0 <= i < |t.io|
        ensures t.io[i] in heads
      {
        assert t.io[i] in t.io;
      }
    }

    lemma OfValid(t: Transaction)
      requires Valid() && t in all
      ensures Owns(t) && t.ListsOk() && OnList(t) && Covers(t)
    {
    }

    /** Every buffer of t is on one of its lists. */
    ghost predicate Covers(t: Transaction)
      reads this`heads, heads`cpTransaction, t`bufs, t`io
    {
      forall jh :: jh in heads && jh.cpTransaction == t ==> jh in t.bufs || jh in t.io
    }

    /** Only t and its buffers have changed, and all is well again. */
    twostate lemma Settled(t: Transaction)
      requires (var valid := old(Valid()); valid) && all == old(all) && heads == old(heads) && t in all
      requires var owns, linked, onList, covers := Owns(t), t.ListsOk(), OnList(t), Covers(t);
               owns && linked && onList && covers
      requires forall u :: u in all && u != t ==>
                 && u.checkpointList == old(u.checkpointList) && u.checkpointIoList == old(u.checkpointIoList)
                 && u.bufs == old(u.bufs) && u.io == old(u.io)
      requires forall y :: y in heads && old(y.cpTransaction) != null && old(y.cpTransaction) != t ==>
                 y.cpNext == old(y.cpNext) && y.cpPrev == old(y.cpPrev) && y.cpTransaction == old(y.cpTransaction)
      requires forall y :: y in heads ==> y.cpTransaction == old(y.cpTransaction) || y.cpTransaction == t
      requires checkpointTransactions == old(checkpointTransactions) && chps == old(chps) && freed == old(freed)
      requires unchanged(chps`cpNext, chps`cpPrev) && unchanged(all`state, all`cpNext)
      ensures var valid := Valid(); valid
    {
      OthersKept(t);
      forall u | u in all
        ensures OnList(u) && Covers(u)
      {
        assert u != t ==> old(OnList(u)) && old(Covers(u));
      }
    }

    /** The part of __jbd2_journal_remove_checkpoint for a buffer that has a
        transaction: the transaction is freed exactly when it is finished and this was
        its last buffer. */
    method RemoveFrom(jh: JournalHead, t: Transaction) returns (drop: bool)
      requires Valid() && jh in heads && jh.cpTransaction == t
      modifies this`checkpointTransactions, this`chps, this`freed, chps`cpNext, chps`cpPrev
      modifies t`checkpointList, t`checkpointIoList, t`bufs, t`io, jh`cpTransaction
      modifies heads`cpNext, heads`cpPrev
      ensures t.bufs == Minus(old(t.bufs), jh) && t.io == Minus(old(t.io), jh)
      ensures drop == (t.state == T_FINISHED && t.bufs == [] && t.io == [])
      ensures freed == if drop then old(freed) + {t} else old(freed)
      ensures chps == if drop then Minus(old(chps), t) else old(chps)
      ensures var valid := Valid(); valid && jh.cpTransaction == null
    {
      DetachBuffer(jh, t);
      drop := DropEmpty(t);
    }

    twostate lemma StillOnList(t: Transaction)
      requires old(AllOnList()) && all == old(all) && chps == old(chps) && freed == old(freed) && t in all
      requires old(t.bufs) != [] || old(t.io) != [] || t !in freed
      requires unchanged(all`state, all`cpNext)
      requires forall u :: u in all && u != t ==> u.bufs == old(u.bufs) && u.io == old(u.io)
      ensures DueToDrop(t)
    {
      forall u | u in all
        ensures u != t ==> OnList(u)
      {
        assert old(OnList(u));
      }
      assert old(OnList(t));
    }

    /** __jbd2_journal_remove_checkpoint. */
    method RemoveCheckpoint(jh: JournalHead) returns (drop: bool)
      requires Valid() && jh in heads
      modifies this`checkpointTransactions, this`chps, this`freed, chps`cpNext, chps`cpPrev, jh`cpTransaction
      modifies all`checkpointList, all`checkpointIoList, all`bufs, all`io, heads`cpNext, heads`cpPrev
      ensures var valid := Valid(); valid && jh.cpTransaction == null
      ensures freed == if drop then old(freed) + {old(jh.cpTransaction)} else old(freed)
      ensures drop ==> chps == Minus(old(chps), old(jh.cpTransaction))
      ensures !drop ==> chps == old(chps)
    {
      var t := jh.cpTransaction;
      if t == null {
        return false;
      }
      drop := RemoveFrom(jh, t);
    }

    twostate lemma BufferGone(jh: JournalHead)
      requires old(ListsOk()) && old(HeadsOk()) && all == old(all) && heads == old(heads)
      requires jh in heads && jh.cpTransaction == null && old(jh.cpTransaction) != null
      requires var t := old(jh.cpTransaction);
               t in all && t.ListsOk() && t.bufs == Minus(old(t.bufs), jh) && t.io == Minus(old(t.io), jh)
      requires forall u :: u in all && u != old(jh.cpTransaction) ==>
                 && u.checkpointList == old(u.checkpointList) && u.checkpointIoList == old(u.checkpointIoList)
                 && u.bufs == old(u.bufs) && u.io == old(u.io)
      requires var t := old(jh.cpTransaction);
               forall y :: y in heads && y !in old(t.bufs) && y !in old(t.io) ==>
                 y.cpNext == old(y.cpNext) && y.cpPrev == old(y.cpPrev)
      requires forall y :: y in heads && y != jh ==> y.cpTransaction == old(y.cpTransaction)
      ensures ListsOk() && HeadsOk()
    {
      var t := old(jh.cpTransaction);
      assert old(Owns(t) && t.ListsOk());
      InMinus(old(t.bufs), jh);
      InMinus(old(t.io), jh);
      assert forall i :: 0 <= i < |t.bufs| ==> t.bufs[i] in old(t.bufs);
      assert forall i :: 0 <= i < |t.io| ==> t.io[i] in old(t.io);
      OthersKept(t);
      HeadsKept(jh);
    }

    /** Only t and its buffers have changed, and are well formed again. */
    twostate lemma OthersKept(t: Transaction)
      requires old(ListsOk()) && all == old(all) && heads == old(heads) && Owns(t) && t.ListsOk()
      requires forall u :: u in all && u != t ==>
                 && u.checkpointList == old(u.checkpointList) && u.checkpointIoList == old(u.checkpointIoList)
                 && u.bufs == old(u.bufs) && u.io == old(u.io)
      requires forall y :: y in heads && old(y.cpTransaction) != null && old(y.cpTransaction) != t ==>
                 y.cpNext == old(y.cpNext) && y.cpPrev == old(y.cpPrev) && y.cpTransaction == old(y.cpTransaction)
      ensures ListsOk()
    {
      forall u | u in all
        ensures Owns(u) && u.ListsOk()
      {
        if u != t {
          OtherKept(u);
        }
      }
    }

    /** A transaction none of whose buffers is touched. */
    twostate lemma OtherKept(u: Transaction)
      requires old(Owns(u)) && old(u.ListsOk()) && heads == old(heads)
      requires u.checkpointList == old(u.checkpointList) && u.checkpointIoList == old(u.checkpointIoList)
      requires u.bufs == old(u.bufs) && u.io == old(u.io)
      requires forall y :: y in heads && old(y.cpTransaction) == u ==>
                 y.cpNext == old(y.cpNext) && y.cpPrev == old(y.cpPrev) && y.cpTransaction == old(y.cpTransaction)
      ensures Owns(u) && u.ListsOk()
    {
      assert forall i :: 0 <= i < |u.bufs| ==> old(u.bufs[i].cpTransaction) == u;
      assert forall i :: 0 <= i < |u.io| ==> old(u.io[i].cpTransaction) == u;
    }

    twostate lemma HeadsKept(jh: JournalHead)
      requires old(HeadsOk()) && all == old(all) && heads == old(heads)
      requires jh in heads && jh.cpTransaction == null && old(jh.cpTransaction) != null
      requires var t := old(jh.cpTransaction);
               && t in all && (forall y :: y in old(t.bufs) && y != jh ==> y in t.bufs)
               && (forall y :: y in old(t.io) && y != jh ==> y in t.io)
      requires forall u :: u in all && u != old(jh.cpTransaction) ==> u.bufs == old(u.bufs) && u.io == old(u.io)
      requires forall y :: y in heads && y != jh ==> y.cpTransaction == old(y.cpTransaction)
      ensures HeadsOk()
    {
      forall u | u in all
        ensures Covers(u)
      {
        assert old(Covers(u));
      }
    }
  
    /** The buffers that can be released. */
    ghost predicate Releasable(gone: set<JournalHead>)
      reads this`heads, heads`inTransaction, heads`locked, heads`dirty, heads`writeError
    {
      forall jh :: jh in heads ==> (jh in gone <==> jh.Written())
    }

    /** One list of a transaction is cleaned. */
    method SweepBuffers(t: Transaction, onIo: bool, busy: bool, ghost gone: set<JournalHead>, ghost left: seq<JournalHead>)
      returns (reaped: nat, preempted: bool, ghost visited: seq<JournalHead>)
      requires var valid, releasable := Valid(), Releasable(gone);
               valid && releasable && t in all && t !in freed && left == Staying(t.ListOf(onIo), gone)
      modifies t`checkpointList, t`checkpointIoList, t`bufs, t`io
      modifies heads`cpTransaction, heads`cpNext, heads`cpPrev
      ensures var lists, buffers := ListsOk(), HeadsOk(); lists && buffers
      ensures t.ListOf(!onIo) == old(t.ListOf(!onIo))
      ensures Staying(t.ListOf(onIo), gone) == left && (preempted || t.ListOf(onIo) == left)
      ensures visited <= old(t.ListOf(onIo)) && (preempted || visited == old(t.ListOf(onIo)))
      ensures t.ListOf(onIo) == Staying(visited, gone) + old(t.ListOf(onIo))[|visited|..] && (preempted ==> busy)
      ensures reaped == |old(t.ListOf(onIo))| - |t.ListOf(onIo)|
    {
      StartClean(t);
      ghost var mine := set jh | jh in heads && (jh in t.bufs || jh in t.io);
      var released;
      var jh0 := if onIo then t.checkpointIoList else t.checkpointList;
      reaped, released, preempted, visited := t.CleanOneCpList(jh0, busy, onIo, gone, mine);
      Cleaned(t);
    }

    /** The same, without the drop of the transaction. */
    method CleanBuffers(t: Transaction, onIo: bool, busy: bool, ghost gone: set<JournalHead>, ghost left: seq<JournalHead>)
      returns (reaped: nat, preempted: bool, ghost visited: seq<JournalHead>)
      requires var valid, releasable := Valid(), Releasable(gone);
               valid && releasable && t in all && t !in freed && left == Staying(t.ListOf(onIo), gone)
      modifies t`checkpointList, t`checkpointIoList, t`bufs, t`io
      modifies heads`cpTransaction, heads`cpNext, heads`cpPrev
      ensures var due, lists, buffers := DueToDrop(t), ListsOk(), HeadsOk();
              due && lists && buffers
      ensures t.ListOf(!onIo) == old(t.ListOf(!onIo))
      ensures Staying(t.ListOf(onIo), gone) == left && (preempted || t.ListOf(onIo) == left)
      ensures visited <= old(t.ListOf(onIo)) && (preempted || visited == old(t.ListOf(onIo)))
      ensures t.ListOf(onIo) == Staying(visited, gone) + old(t.ListOf(onIo))[|visited|..] && (preempted ==> busy)
      ensures reaped == |old(t.ListOf(onIo))| - |t.ListOf(onIo)|
    {
      reaped, preempted, visited := SweepBuffers(t, onIo, busy, gone, left);
      StillOnList(t);
    }

    lemma StartClean(t: Transaction)
      requires Valid() && t in all && t !in freed
      ensures t.ListsOk() && t.NotDue() && Owns(t)
      ensures forall jh :: jh in t.bufs || jh in t.io ==> jh in heads && jh.cpTransaction == t
    {
      OfValid(t);
    }

    twostate lemma Cleaned(t: Transaction)
      requires old(ListsOk()) && old(HeadsOk()) && all == old(all) && heads == old(heads) && t in all && t.ListsOk()
      requires forall u :: u in all && u != t ==>
                 && u.checkpointList == old(u.checkpointList) && u.checkpointIoList == old(u.checkpointIoList)
                 && u.bufs == old(u.bufs) && u.io == old(u.io)
      requires forall y :: y in heads && (y in old(t.bufs) || y in old(t.io)) ==>
                 y.cpTransaction == null || (y.cpTransaction == t && (y in t.bufs || y in t.io))
      requires forall y :: y in heads && y !in old(t.bufs) && y !in old(t.io) ==>
                 y.cpNext == old(y.cpNext) && y.cpPrev == old(y.cpPrev) && y.cpTransaction == old(y.cpTransaction)
      requires Owns(t)
      ensures ListsOk() && HeadsOk()
    {
      assert old(Owns(t) && t.ListsOk());
      OthersKept(t);
      forall u | u in all
        ensures Covers(u)
      {
        assert old(Covers(u));
      }
    }
  
    /** journal_clean_one_cp_list, with the drop of the transaction that takes place when
        its last buffer is removed. */
    method CleanList(t: Transaction, onIo: bool, busy: bool, ghost gone: set<JournalHead>, ghost left: seq<JournalHead>)
      returns (reaped: nat, released: bool, preempted: bool, ghost visited: seq<JournalHead>)
      requires var valid, releasable := Valid(), Releasable(gone);
               valid && releasable && t in all && t !in freed && left == Staying(t.ListOf(onIo), gone)
      modifies this`checkpointTransactions, this`chps, this`freed, chps`cpNext, chps`cpPrev
      modifies t`checkpointList, t`checkpointIoList, t`bufs, t`io
      modifies heads`cpTransaction, heads`cpNext, heads`cpPrev
      ensures var valid := Valid(); valid
      ensures released == (t.state == T_FINISHED && t.bufs == [] && t.io == [])
      ensures freed == if released then old(freed) + {t} else old(freed)
      ensures chps == if released then Minus(old(chps), t) else old(chps)
      ensures t.ListOf(!onIo) == old(t.ListOf(!onIo))
      ensures Staying(t.ListOf(onIo), gone) == left && (preempted || t.ListOf(onIo) == left)
      ensures visited <= old(t.ListOf(onIo)) && (preempted || visited == old(t.ListOf(onIo)))
      ensures t.ListOf(onIo) == Staying(visited, gone) + old(t.ListOf(onIo))[|visited|..] && (preempted ==> busy)
      ensures reaped == |old(t.ListOf(onIo))| - |t.ListOf(onIo)|
    {
      reaped, preempted, visited := CleanBuffers(t, onIo, busy, gone, left);
      released := DropEmpty(t);
    }

    /** A turn of __jbd2_journal_clean_checkpoint_list: both lists of a transaction.  The
        second is not looked at if the first was the last of it, and is empty then. */
    method CleanTransaction(t: Transaction, busy: bool, ghost gone: set<JournalHead>, ghost bufs: seq<JournalHead>, ghost io: seq<JournalHead>)
      returns (reaped: nat, preempted: bool)
      requires var valid, releasable := Valid(), Releasable(gone);
               valid && releasable && t in all && t !in freed
      requires bufs == Staying(t.bufs, gone) && io == Staying(t.io, gone)
      modifies this`checkpointTransactions, this`chps, this`freed, chps`cpNext, chps`cpPrev
      modifies t`checkpointList, t`checkpointIoList, t`bufs, t`io
      modifies heads`cpTransaction, heads`cpNext, heads`cpPrev
      ensures var valid := Valid(); valid
      ensures freed == old(freed) || freed == old(freed) + {t}
      ensures chps == if t in freed then Minus(old(chps), t) else old(chps)
      ensures preempted || (t.bufs == bufs && t.io == io)
      ensures Staying(t.bufs, gone) == bufs && Staying(t.io, gone) == io && (preempted ==> busy)
      ensures reaped == old(|t.bufs| + |t.io|) - (|t.bufs| + |t.io|)
    {
      var released;
      ghost var visited;
      reaped, released, preempted, visited := CleanList(t, false, busy, gone, bufs);
      if !preempted && !released {
        var more;
        more, released, preempted, visited := CleanList(t, true, busy, gone, io);
        reaped := reaped + more;
      }
    }

    /** How many buffers each transaction has. */
    ghost function HeldOf(s: seq<Transaction>): (held: map<Transaction, nat>)
      reads s`bufs, s`io
      ensures forall i :: 0 <= i < |s| ==> s[i] in held && held[s[i]] == |s[i].bufs| + |s[i].io|
    {
      map t | t in s :: |t.bufs| + |t.io|
    }

    lemma OnFirst(t: Transaction, kept: seq<Transaction>, rest: seq<Transaction>)
      requires AllOnList() && ListOk() && chps == kept + rest && rest != [] && rest[0] == t
      ensures t in all && t !in freed
      ensures |rest| > 1 ==> t.cpNext == rest[1]
      ensures t == rest[|rest| - 1] <==> |rest| == 1
      ensures Minus(chps, t) == kept + rest[1..] && chps == kept + [t] + rest[1..]
    {
      FirstOfRest(kept, rest);
      assert chps[|kept|] == t && OnList(t);
      if |rest| > 1 {
        assert chps[|kept| + 1] == rest[1];
      }
    }

    lemma FirstOfRest<T>(kept: seq<T>, rest: seq<T>)
      requires Distinct(kept + rest) && rest != []
      ensures rest[0] == rest[|rest| - 1] <==> |rest| == 1
      ensures Minus(kept + rest, rest[0]) == kept + rest[1..] && kept + rest == kept + [rest[0]] + rest[1..]
    {
      var s := kept + rest;
      assert s[|kept|] == rest[0] && s[|s| - 1] == rest[|rest| - 1];
      MinusAt(s, |kept|);
      assert Without(s, |kept|) == kept + rest[1..];
    }

    lemma VisitedNext(visited: seq<Transaction>, t: Transaction, was: set<Transaction>, now: set<Transaction>)
      requires t !in visited && t !in was && (now == was || now == was + {t})
      ensures Staying(visited + [t], now) == if t in now then Staying(visited, was) else Staying(visited, was) + [t]
    {
      StayingBoth(visited, [t], now);
      StayingSame(visited, was, t);
    }

    /** A turn of the outer walk. */
    method WalkTurn(t: Transaction, lastT: Transaction?, busy: bool, ghost kept: seq<Transaction>, ghost rest: seq<Transaction>,
                    ghost gone: set<JournalHead>, ghost bufs: seq<JournalHead>, ghost io: seq<JournalHead>)
      returns (reaped: nat, preempted: bool, last: bool, next: Transaction?)
      requires var valid, releasable := Valid(), Releasable(gone); valid && releasable && chps == kept + rest
      requires rest != [] && t == rest[0] && lastT == rest[|rest| - 1]
      requires bufs == Staying(t.bufs, gone) && io == Staying(t.io, gone)
      modifies this`checkpointTransactions, this`chps, this`freed, all`cpNext, all`cpPrev
      modifies t`checkpointList, t`checkpointIoList, t`bufs, t`io
      modifies heads`cpTransaction, heads`cpNext, heads`cpPrev
      ensures var valid := Valid(); valid
      ensures preempted || (t.bufs == bufs && t.io == io)
      ensures Staying(t.bufs, gone) == bufs && Staying(t.io, gone) == io && (preempted ==> busy)
      ensures t !in old(freed) && (freed == old(freed) || freed == old(freed) + {t})
      ensures chps == (if t in freed then kept else kept + [t]) + rest[1..]
      ensures last == (|rest| == 1)
      ensures !last ==> next == rest[1]
      ensures reaped == old(|t.bufs| + |t.io|) - (|t.bufs| + |t.io|)
    {
      OnFirst(t, kept, rest);
      next, last := t.cpNext, t == lastT;
      reaped, preempted := CleanTransaction(t, busy, gone, bufs, io);
    }
  
    /** What becomes of the lists of a transaction. */
    ghost predicate PlannedAt(t: Transaction, gone: set<JournalHead>, bufs: map<Transaction, seq<JournalHead>>,
                              io: map<Transaction, seq<JournalHead>>)
      reads t`bufs, t`io
    {
      t in bufs && bufs[t] == Staying(t.bufs, gone) && t in io && io[t] == Staying(t.io, gone)
    }

    ghost predicate DoneAt(t: Transaction, bufs: map<Transaction, seq<JournalHead>>, io: map<Transaction, seq<JournalHead>>)
      reads t`bufs, t`io
    {
      t in bufs && t.bufs == bufs[t] && t in io && t.io == io[t]
    }

    ghost predicate Plan(s: seq<Transaction>, gone: set<JournalHead>, bufs: map<Transaction, seq<JournalHead>>,
                         io: map<Transaction, seq<JournalHead>>)
      reads s`bufs, s`io
    {
      forall i :: 0 <= i < |s| ==> PlannedAt(s[i], gone, bufs, io)
    }

    ghost predicate Done(s: seq<Transaction>, bufs: map<Transaction, seq<JournalHead>>, io: map<Transaction, seq<JournalHead>>)
      reads s`bufs, s`io
    {
      forall i :: 0 <= i < |s| ==> DoneAt(s[i], bufs, io)
    }

    /** The walk over the list that was s: of the transactions visited those that are not
        freed are kept. */
    ghost predicate Walked(s: seq<Transaction>, visited: seq<Transaction>, rest: seq<Transaction>,
                           kept: seq<Transaction>, now: set<Transaction>) {
      Split(s, visited, rest) && Apart(visited, rest) && kept == Staying(visited, now)
    }

    lemma WalkedNext(s: seq<Transaction>, visited: seq<Transaction>, rest: seq<Transaction>, kept: seq<Transaction>,
                     was: set<Transaction>, now: set<Transaction>)
      requires Walked(s, visited, rest, kept, was) && rest != []
      requires rest[0] !in was && (now == was || now == was + {rest[0]})
      ensures var walked := Walked(s, visited + [rest[0]], rest[1..],
                                   if rest[0] in now then kept else kept + [rest[0]], now); walked
    {
      VisitedNext(visited, rest[0], was, now);
      SplitNext(s, visited, rest);
      ApartNext(visited, rest);
    }

    lemma ApartNext<T>(visited: seq<T>, rest: seq<T>)
      requires Apart(visited, rest) && rest != []
      ensures var apart := Apart(visited + [rest[0]], rest[1..]); apart
    {
    }

    /** The buffers during the walk. */
    ghost predicate Planned(visited: seq<Transaction>, rest: seq<Transaction>, gone: set<JournalHead>,
                            bufs: map<Transaction, seq<JournalHead>>, io: map<Transaction, seq<JournalHead>>, preempted: bool)
      reads visited`bufs, visited`io, rest`bufs, rest`io
    {
      (preempted || Done(visited, bufs, io)) && Plan(visited, gone, bufs, io) && Plan(rest, gone, bufs, io)
    }

    /** The next and the last transaction to visit. */
    predicate Ahead(t: Transaction?, lastT: Transaction?, rest: seq<Transaction>) {
      rest != [] && t == rest[0] && lastT == rest[|rest| - 1]
    }

    /** A turn of the loop, for the journal. */
    method WalkStep(t: Transaction, lastT: Transaction?, busy: bool, ghost visited: seq<Transaction>,
                    ghost rest: seq<Transaction>, ghost kept: seq<Transaction>, ghost gone: set<JournalHead>,
                    ghost bufs: map<Transaction, seq<JournalHead>>, ghost io: map<Transaction, seq<JournalHead>>)
      returns (reaped: nat, preempted: bool, last: bool, next: Transaction?)
      requires var valid, releasable := Valid(), Releasable(gone); valid && releasable && chps == kept + rest
      requires var planned := Planned(visited, rest, gone, bufs, io, false); planned
      requires var apart, ahead := Apart(visited, rest), Ahead(t, lastT, rest); apart && ahead
      modifies this`checkpointTransactions, this`chps, this`freed, all`cpNext, all`cpPrev
      modifies t`checkpointList, t`checkpointIoList, t`bufs, t`io
      modifies heads`cpTransaction, heads`cpNext, heads`cpPrev
      ensures var valid, releasable := Valid(), Releasable(gone); valid && releasable && chps == (if t in freed then kept else kept + [t]) + rest[1..]
      ensures var planned := Planned(visited + [t], rest[1..], gone, bufs, io, preempted); planned
      ensures t !in old(freed) && (freed == old(freed) || freed == old(freed) + {t})
      ensures last == (rest[1..] == []) && (preempted ==> busy)
      ensures reaped == old(|t.bufs| + |t.io|) - (|t.bufs| + |t.io|)
      ensures last || var ahead := Ahead(next, lastT, rest[1..]); ahead
    {
      PlanSplit(t, visited, rest, gone, bufs, io);
      reaped, preempted, last, next := WalkTurn(t, lastT, busy, kept, rest, gone, bufs[t], io[t]);
      PlanJoin(t, visited, rest[1..], gone, bufs, io, preempted);
    }

    lemma PlanSplit(t: Transaction, visited: seq<Transaction>, rest: seq<Transaction>, gone: set<JournalHead>,
                    bufs: map<Transaction, seq<JournalHead>>, io: map<Transaction, seq<JournalHead>>)
      requires var apart, plan := Apart(visited, rest), Planned(visited, rest, gone, bufs, io, false);
               apart && plan && rest != [] && rest[0] == t
      ensures PlannedAt(t, gone, bufs, io) && t !in visited && t !in rest[1..]
      ensures var planned := Planned(visited, rest[1..], gone, bufs, io, false); planned
    {
      assert PlannedAt(rest[0], gone, bufs, io);
      var r := rest[1..];
      forall i | 0 <= i < |r|
        ensures PlannedAt(r[i], gone, bufs, io)
      {
        assert PlannedAt(rest[i + 1], gone, bufs, io);
      }
    }

    lemma PlanJoin(t: Transaction, visited: seq<Transaction>, rest: seq<Transaction>, gone: set<JournalHead>,
                   bufs: map<Transaction, seq<JournalHead>>, io: map<Transaction, seq<JournalHead>>, preempted: bool)
      requires var planned := Planned(visited, rest, gone, bufs, io, false); planned
      requires PlannedAt(t, gone, bufs, io) && (preempted || DoneAt(t, bufs, io))
      ensures var planned := Planned(visited + [t], rest, gone, bufs, io, preempted); planned
    {
    }

    /** A turn of the loop, and the buffers that it releases. */
    method WalkCounted(t: Transaction, lastT: Transaction?, busy: bool, ghost s: seq<Transaction>, ghost visited: seq<Transaction>,
                       ghost rest: seq<Transaction>, ghost kept: seq<Transaction>, ghost gone: set<JournalHead>,
                       ghost bufs: map<Transaction, seq<JournalHead>>, ghost io: map<Transaction, seq<JournalHead>>)
      returns (reaped: nat, preempted: bool, last: bool, next: Transaction?)
      requires var valid, releasable := Valid(), Releasable(gone); valid && releasable && chps == kept + rest
      requires var planned := Planned(visited, rest, gone, bufs, io, false); planned
      requires var split, apart, ahead := Split(s, visited, rest), Apart(visited, rest), Ahead(t, lastT, rest);
               split && apart && ahead
      modifies this`checkpointTransactions, this`chps, this`freed, all`cpNext, all`cpPrev
      modifies t`checkpointList, t`checkpointIoList, t`bufs, t`io
      modifies heads`cpTransaction, heads`cpNext, heads`cpPrev
      ensures var valid, releasable := Valid(), Releasable(gone); valid && releasable && chps == (if t in freed then kept else kept + [t]) + rest[1..]
      ensures var planned := Planned(visited + [t], rest[1..], gone, bufs, io, preempted); planned
      ensures t !in old(freed) && (freed == old(freed) || freed == old(freed) + {t})
      ensures last == (rest[1..] == []) && (preempted ==> busy)
      ensures Sum(s, HeldOf(s)) + reaped == old(Sum(s, HeldOf(s)))
      ensures last || var ahead := Ahead(next, lastT, rest[1..]); ahead
    {
      ghost var held := HeldOf(s);
      reaped, preempted, last, next := WalkStep(t, lastT, busy, visited, rest, kept, gone, bufs, io);
      SumStep(s, visited, rest, held, HeldOf(s));
    }

    /** A turn of the loop. */
    method WalkOn(t: Transaction, lastT: Transaction?, busy: bool, ghost s: seq<Transaction>, ghost visited: seq<Transaction>,
                  ghost rest: seq<Transaction>, ghost kept: seq<Transaction>, ghost gone: set<JournalHead>,
                  ghost bufs: map<Transaction, seq<JournalHead>>, ghost io: map<Transaction, seq<JournalHead>>)
      returns (reaped: nat, preempted: bool, last: bool, next: Transaction?, ghost visited': seq<Transaction>,
               ghost rest': seq<Transaction>, ghost kept': seq<Transaction>)
      requires var valid, releasable := Valid(), Releasable(gone); valid && releasable && chps == kept + rest
      requires var planned := Planned(visited, rest, gone, bufs, io, false); planned
      requires var walked := Walked(s, visited, rest, kept, freed); walked
      requires var ahead := Ahead(t, lastT, rest); ahead
      modifies this`checkpointTransactions, this`chps, this`freed, all`cpNext, all`cpPrev
      modifies t`checkpointList, t`checkpointIoList, t`bufs, t`io
      modifies heads`cpTransaction, heads`cpNext, heads`cpPrev
      ensures var valid, releasable := Valid(), Releasable(gone); valid && releasable && chps == kept' + rest'
      ensures var planned := Planned(visited', rest', gone, bufs, io, preempted); planned
      ensures var walked := Walked(s, visited', rest', kept', freed); walked
      ensures |rest'| == |rest| - 1 && last == (rest' == []) && (preempted ==> busy)
      ensures Sum(s, HeldOf(s)) + reaped == old(Sum(s, HeldOf(s)))
      ensures all == old(all) && heads == old(heads)
      ensures last || var ahead := Ahead(next, lastT, rest'); ahead
    {
      ghost var was := freed;
      reaped, preempted, last, next := WalkCounted(t, lastT, busy, s, visited, rest, kept, gone, bufs, io);
      WalkedNext(s, visited, rest, kept, was, freed);
      visited', rest', kept' := visited + [t], rest[1..], if t in freed then kept else kept + [t];
    }

    /** The loop of __jbd2_journal_clean_checkpoint_list. */
    method WalkLoop(t0: Transaction, lastT: Transaction?, busy: bool, ghost s: seq<Transaction>, ghost gone: set<JournalHead>,
                    ghost bufs: map<Transaction, seq<JournalHead>>, ghost io: map<Transaction, seq<JournalHead>>)
      returns (reaped: nat, preempted: bool, ghost visited: seq<Transaction>, ghost rest: seq<Transaction>,
               ghost kept: seq<Transaction>)
      requires var valid, releasable := Valid(), Releasable(gone); valid && releasable && chps == [] + s
      requires var planned := Planned([], s, gone, bufs, io, false); planned
      requires var walked := Walked(s, [], s, [], freed); walked
      requires s != [] && t0 == s[0] && lastT == s[|s| - 1]
      modifies this`checkpointTransactions, this`chps, this`freed, all`cpNext, all`cpPrev
      modifies s`checkpointList, s`checkpointIoList, s`bufs, s`io
      modifies heads`cpTransaction, heads`cpNext, heads`cpPrev
      ensures var valid, releasable := Valid(), Releasable(gone); valid && releasable && chps == kept + rest
      ensures var planned := Planned(visited, rest, gone, bufs, io, preempted); planned
      ensures var walked := Walked(s, visited, rest, kept, freed); walked
      ensures (preempted || rest == []) && (preempted ==> busy)
      ensures Sum(s, HeldOf(s)) + reaped == old(Sum(s, HeldOf(s)))
    {
      visited, rest, kept := [], s, [];
      var t: Transaction, last := t0, false;
      reaped, preempted := 0, false;
      while !last && !preempted
        invariant var valid, releasable := Valid(), Releasable(gone); valid && releasable && chps == kept + rest
        invariant var planned := Planned(visited, rest, gone, bufs, io, preempted); planned
        invariant var walked := Walked(s, visited, rest, kept, freed); walked
        invariant (last ==> rest == []) && (preempted ==> busy)
        invariant Sum(s, HeldOf(s)) + reaped == old(Sum(s, HeldOf(s)))
        invariant last || var ahead := Ahead(t, lastT, rest); ahead
        invariant all == old(all) && heads == old(heads) && t in s
        decreases |rest|
      {
        var more, next;
        more, preempted, last, next, visited, rest, kept := WalkOn(t, lastT, busy, s, visited, rest, kept, gone, bufs, io);
        reaped := reaped + more;
        if !last {
          SplitIn(s, visited, rest);
          t := next;
        }
      }
    }

    lemma WalkStarts(s: seq<Transaction>, gone: set<JournalHead>, bufs: map<Transaction, seq<JournalHead>>,
                     io: map<Transaction, seq<JournalHead>>)
      requires Valid() && Releasable(gone) && chps == s != [] && Plan(s, gone, bufs, io)
      ensures var planned := Planned([], s, gone, bufs, io, false); planned
      ensures Walked(s, [], s, [], freed) && chps == [] + s
      ensures checkpointTransactions == s[0] && checkpointTransactions.cpPrev == s[|s| - 1]
    {
      assert s == [] + s && s[0] in s;
    }

    lemma WalkEnds(s: seq<Transaction>, visited: seq<Transaction>, rest: seq<Transaction>, kept: seq<Transaction>,
                   now: set<Transaction>)
      requires Walked(s, visited, rest, kept, now)
      ensures visited <= s
      ensures rest == [] ==> visited == s && kept == Staying(s, now) && kept + rest == kept
    {
      SplitSo(s, visited, rest);
    }

    lemma PlanOfBoth(s: seq<Transaction>, visited: seq<Transaction>, rest: seq<Transaction>, gone: set<JournalHead>,
                     bufs: map<Transaction, seq<JournalHead>>, io: map<Transaction, seq<JournalHead>>)
      requires var split, was, ahead := Split(s, visited, rest), Plan(visited, gone, bufs, io), Plan(rest, gone, bufs, io);
               split && was && ahead
      ensures var plan := Plan(s, gone, bufs, io); plan
    {
      SplitSo(s, visited, rest);
      forall i | 0 <= i < |s|
        ensures PlannedAt(s[i], gone, bufs, io)
      {
        assert s[i] == if i < |visited| then visited[i] else rest[i - |visited|];
      }
    }

    /** __jbd2_journal_clean_checkpoint_list: unless the processor is wanted, every
        transaction is visited once, in order, though some are freed under the walk; its
        releasable buffers are gone, and it is on the list exactly if it was not freed.
        In any case no other buffer leaves a list, and the number returned is that of the
        buffers released. */
    method CleanCheckpointList(busy: bool, ghost gone: set<JournalHead>, ghost bufs: map<Transaction, seq<JournalHead>>,
                               ghost io: map<Transaction, seq<JournalHead>>)
      returns (reaped: nat, preempted: bool, ghost visited: seq<Transaction>)
      requires forall jh :: jh in heads ==> (jh in gone <==> !jh.inTransaction && !jh.locked && !jh.dirty && !jh.writeError)
      requires var valid, plan := Valid(), Plan(chps, gone, bufs, io); valid && plan
      modifies this`checkpointTransactions, this`chps, this`freed, all`cpNext, all`cpPrev
      modifies chps`checkpointList, chps`checkpointIoList, chps`bufs, chps`io
      modifies heads`cpTransaction, heads`cpNext, heads`cpPrev
      ensures var valid := Valid(); valid
      ensures visited <= old(chps) && (preempted || visited == old(chps))
      ensures preempted || (chps == Staying(old(chps), freed) && var done := Done(old(chps), bufs, io); done)
      ensures var plan := Plan(old(chps), gone, bufs, io); plan && (preempted ==> busy)
      ensures var s := old(chps); Sum(s, HeldOf(s)) + reaped == old(Sum(chps, HeldOf(chps)))
    {
      if checkpointTransactions == null {
        return 0, false, [];
      }
      reaped, preempted, visited := WalkAll(chps, busy, gone, bufs, io);
    }

    /** The same for a list that is not empty. */
    method WalkAll(ghost s: seq<Transaction>, busy: bool, ghost gone: set<JournalHead>, ghost bufs: map<Transaction, seq<JournalHead>>,
                   ghost io: map<Transaction, seq<JournalHead>>)
      returns (reaped: nat, preempted: bool, ghost visited: seq<Transaction>)
      requires var valid, releasable, plan := Valid(), Releasable(gone), Plan(s, gone, bufs, io);
               valid && releasable && plan && s == chps != []
      modifies this`checkpointTransactions, this`chps, this`freed, all`cpNext, all`cpPrev
      modifies s`checkpointList, s`checkpointIoList, s`bufs, s`io
      modifies heads`cpTransaction, heads`cpNext, heads`cpPrev
      ensures var valid := Valid(); valid
      ensures visited <= s && (preempted || visited == s)
      ensures preempted || (chps == Staying(s, freed) && var done := Done(s, bufs, io); done)
      ensures var plan := Plan(s, gone, bufs, io); plan && (preempted ==> busy)
      ensures Sum(s, HeldOf(s)) + reaped == old(Sum(s, HeldOf(s)))
    {
      ghost var rest, kept;
      WalkStarts(s, gone, bufs, io);
      reaped, preempted, visited, rest, kept := WalkLoop(checkpointTransactions, checkpointTransactions.cpPrev, busy, s, gone, bufs, io);
      WalkEnds(s, visited, rest, kept, freed);
      PlanOfBoth(s, visited, rest, gone, bufs, io);
    }
  }
}
