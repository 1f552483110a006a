/** The directory tree and what rename does to it (lock_rename and renameat in
    fs/namei.c). */
module RenameTree {
  /** d_parent of every dentry; the root is its own parent. */
  type Parents = map<nat, nat>

  predicate Closed(p: Parents, root: nat) {
    root in p && p[root] == root && forall d :: d in p ==> p[d] in p
  }

  /** A rank witnesses that there is no cycle: it falls on the way up. */
  predicate Ranked(p: Parents, root: nat, rank: map<nat, nat>) {
    forall d :: d in p ==> d in rank && p[d] in rank && (d != root ==> rank[p[d]] < rank[d])
  }

  ghost predicate Tree(p: Parents, root: nat) {
    Closed(p, root) && exists rank :: Ranked(p, root, rank)
  }

  function Climb(p: Parents, d: nat, n: nat): nat
    decreases n
  {
    if n == 0 || d !in p then d else Climb(p, p[d], n - 1)
  }

  /** a is d or an ancestor of d. */
  ghost predicate Above(p: Parents, a: nat, d: nat) {
    exists n :: Climb(p, d, n) == a
  }

  lemma {:induction false} ClimbOn(p: Parents, root: nat, d: nat, m: nat, n: nat)
    requires Closed(p, root) && d in p
    ensures Climb(p, d, m) in p
    ensures Climb(p, d, m + n) == Climb(p, Climb(p, d, m), n)
    decreases m
  {
    if m > 0 {
      ClimbOn(p, root, p[d], m - 1, n);
    }
  }

  lemma {:induction false} ClimbFalls(p: Parents, root: nat, rank: map<nat, nat>, d: nat, n: nat)
    requires Closed(p, root) && Ranked(p, root, rank) && d in p
    ensures Climb(p, d, n) in p && rank[Climb(p, d, n)] <= rank[d]
    ensures n > 0 && d != root ==> rank[Climb(p, d, n)] < rank[d]
    decreases n
  {
    if n > 0 {
      ClimbFalls(p, root, rank, p[d], n - 1);
    }
  }

  lemma {:induction false} RootStays(p: Parents, root: nat, n: nat)
    requires Closed(p, root)
    ensures Climb(p, root, n) == root
  {
    if n > 0 {
      RootStays(p, root, n - 1);
    }
  }

  /** In a tree every dentry reaches the root. */
  lemma {:induction false} ReachesRoot(p: Parents, root: nat, rank: map<nat, nat>, d: nat)
    requires Closed(p, root) && Ranked(p, root, rank) && d in p
    ensures Above(p, root, d)
    decreases rank[d]
  {
    if d == root {
      assert Climb(p, d, 0) == root;
    } else {
      ReachesRoot(p, root, rank, p[d]);
      var n: nat :| Climb(p, p[d], n) == root;
      assert Climb(p, d, n + 1) == root;
    }
  }

  lemma AboveSelf(p: Parents, d: nat)
    ensures Above(p, d, d)
  {
    assert Climb(p, d, 0) == d;
  }

  /** One step up keeps what is above, but for the dentry itself. */
  lemma AboveUp(p: Parents, root: nat, a: nat, d: nat)
    requires Closed(p, root) && d in p
    ensures Above(p, a, p[d]) ==> Above(p, a, d)
    ensures Above(p, a, d) && a != d ==> Above(p, a, p[d])
  {
    if Above(p, a, p[d]) {
      var n: nat :| Climb(p, p[d], n) == a;
      assert Climb(p, d, n + 1) == a;
    }
    if Above(p, a, d) && a != d {
      var n: nat :| Climb(p, d, n) == a;
      assert Climb(p, p[d], n - 1) == a;
    }
  }

  lemma AboveChain(p: Parents, root: nat, a: nat, b: nat, d: nat)
    requires Closed(p, root) && d in p && Above(p, a, b) && Above(p, b, d)
    ensures Above(p, a, d)
  {
    var m: nat :| Climb(p, d, m) == b;
    var n: nat :| Climb(p, b, n) == a;
    ClimbOn(p, root, d, m, n);
  }

  /** What is above a dentry but below its parent is the dentry. */
  lemma NotAboveOwnParent(p: Parents, root: nat, rank: map<nat, nat>, d: nat)
    requires Closed(p, root) && Ranked(p, root, rank) && d in p && d != root
    ensures !Above(p, d, p[d])
  {
    if Above(p, d, p[d]) {
      var n: nat :| Climb(p, p[d], n) == d;
      ClimbFalls(p, root, rank, p[d], n);
    }
  }

  // ------------------------------------------------------------------------ the move

  /** d_move: the two dentries change their parents. */
  function Swapped(p: Parents, src: nat, dst: nat): Parents
    requires src in p && dst in p
  {
    p[src := p[dst]][dst := p[src]]
  }

  predicate Movable(p: Parents, root: nat, src: nat, dst: nat) {
    src in p && dst in p && src != root && dst != root && src != dst
  }

  /** Neither is the source above its new parent nor the target above its own. */
  ghost predicate SafeMove(p: Parents, src: nat, dst: nat)
    requires src in p && dst in p
  {
    !Above(p, src, p[dst]) && !Above(p, dst, p[src])
  }

  function Lift(p: Parents, rank: map<nat, nat>, moved: set<nat>, lift: nat): map<nat, nat> {
    map d | d in rank :: if d in moved then rank[d] + lift else rank[d]
  }

  lemma SafeMoveKeepsTree(p: Parents, root: nat, src: nat, dst: nat)
    requires Tree(p, root) && Movable(p, root, src, dst) && SafeMove(p, src, dst)
    ensures Tree(Swapped(p, src, dst), root)
  {
    var rank :| Ranked(p, root, rank);
    var moved := set d | d in p && (Above(p, src, d) || Above(p, dst, d));
    NotAboveOwnParent(p, root, rank, src);
    NotAboveOwnParent(p, root, rank, dst);
    AboveSelf(p, src);
    AboveSelf(p, dst);
    forall d | d in p && d != src && d != dst
      ensures d in moved <==> p[d] in moved
    {
      MovedTogether(p, root, src, dst, d);
    }
    LiftedRank(p, root, src, dst, rank, moved);
  }

  /** What is moved gets ranks above those of the new parents. */
  lemma LiftedRank(p: Parents, root: nat, src: nat, dst: nat, rank: map<nat, nat>, moved: set<nat>)
    requires Closed(p, root) && Ranked(p, root, rank) && Movable(p, root, src, dst)
    requires src in moved && dst in moved && p[src] !in moved && p[dst] !in moved
    requires forall d :: d in p && d != src && d != dst ==> (d in moved <==> p[d] in moved)
    ensures Tree(Swapped(p, src, dst), root)
  {
    var q, lift := Swapped(p, src, dst), rank[p[dst]] + rank[p[src]] + 1;
    var lifted := Lift(p, rank, moved, lift);
    forall d | d in q
      ensures d in lifted && q[d] in lifted && (d != root ==> lifted[q[d]] < lifted[d])
    {
      LiftedEdge(p, root, src, dst, rank, moved, d);
    }
    assert Ranked(q, root, lifted);
    SwappedClosed(p, root, src, dst);
  }

  lemma SwappedClosed(p: Parents, root: nat, src: nat, dst: nat)
    requires Closed(p, root) && Movable(p, root, src, dst)
    ensures var closed := Closed(Swapped(p, src, dst), root); closed
  {
  }

  lemma LiftedEdge(p: Parents, root: nat, src: nat, dst: nat, rank: map<nat, nat>, moved: set<nat>, d: nat)
    requires Closed(p, root) && Ranked(p, root, rank) && Movable(p, root, src, dst) && d in p
    requires src in moved && dst in moved && p[src] !in moved && p[dst] !in moved
    requires d != src && d != dst ==> (d in moved <==> p[d] in moved)
    ensures var q, lifted := Swapped(p, src, dst), Lift(p, rank, moved, rank[p[dst]] + rank[p[src]] + 1);
            d in lifted && q[d] in lifted && (d != root ==> lifted[q[d]] < lifted[d])
  {
  }

  lemma MovedTogether(p: Parents, root: nat, src: nat, dst: nat, d: nat)
    requires Closed(p, root) && d in p && d != src && d != dst
    ensures Above(p, src, d) || Above(p, dst, d) <==> Above(p, src, p[d]) || Above(p, dst, p[d])
  {
    AboveUp(p, root, src, d);
    AboveUp(p, root, dst, d);
  }

  /** Climbing is the same where no parent has changed. */
  lemma {:induction false} SameClimb(p: Parents, q: Parents, root: nat, d: nat, n: nat)
    requires Closed(p, root) && d in p && d in q
    requires forall k :: 0 <= k < n ==>
               var c := Climb(p, d, k); c in p && c in q && q[c] == p[c]
    ensures Climb(q, d, n) == Climb(p, d, n)
    decreases n
  {
    if n > 0 {
      assert Climb(p, d, 0) == d;
      forall k | 0 <= k < n - 1
        ensures Climb(p, p[d], k) == Climb(p, d, k + 1)
      {
      }
      if n > 1 {
        assert Climb(p, d, 1) == p[d];
      }
      if p[d] in q {
        SameClimb(p, q, root, p[d], n - 1);
      } else {
        assert n == 1;
      }
    }
  }

  /** A source that is above its new parent ends up in a cycle with it. */
  lemma UnsafeMoveMakesCycle(p: Parents, root: nat, a: nat, b: nat)
    requires Tree(p, root) && Movable(p, root, a, b) && Above(p, a, p[b])
    ensures var q := Swapped(p, a, b);
            q[a] == p[b] && Above(q, a, q[a]) && !Tree(q, root)
  {
    var q := Swapped(p, a, b);
    var rank :| Ranked(p, root, rank);
    var n := FirstClimb(p, root, rank, p[b], a);
    NotAboveOwnParent(p, root, rank, b);
    forall k | 0 <= k < n
      ensures var c := Climb(p, p[b], k); c in p && c in q && q[c] == p[c]
    {
      ClimbOn(p, root, p[b], k, 0);
      assert Climb(p, p[b], k) != b;
    }
    SameClimb(p, q, root, p[b], n);
    assert Above(q, a, q[a]);
    if Tree(q, root) {
      var r :| Ranked(q, root, r);
      NotAboveOwnParent(q, root, r, a);
    }
  }

  /** The first time that climbing comes to a. */
  lemma {:induction false} FirstClimb(p: Parents, root: nat, rank: map<nat, nat>, d: nat, a: nat) returns (n: nat)
    requires Closed(p, root) && Ranked(p, root, rank) && d in p && Above(p, a, d)
    ensures Climb(p, d, n) == a && forall k :: 0 <= k < n ==> Climb(p, d, k) != a
    decreases rank[d]
  {
    if d == a {
      return 0;
    }
    var m: nat :| Climb(p, d, m) == a;
    if d == root {
      RootStays(p, root, m);
    }
    AboveUp(p, root, a, d);
    var k := FirstClimb(p, root, rank, p[d], a);
    n := k + 1;
    forall j | 0 <= j < n
      ensures Climb(p, d, j) != a
    {
      if j > 0 {
        assert Climb(p, d, j) == Climb(p, p[d], j - 1);
      }
    }
  }

  /** A move keeps the tree without cycles exactly if it is safe. */
  lemma MoveIff(p: Parents, root: nat, src: nat, dst: nat)
    requires Tree(p, root) && Movable(p, root, src, dst)
    ensures Tree(Swapped(p, src, dst), root) <==> SafeMove(p, src, dst)
  {
    if SafeMove(p, src, dst) {
      SafeMoveKeepsTree(p, root, src, dst);
    } else if Above(p, src, p[dst]) {
      UnsafeMoveMakesCycle(p, root, src, dst);
    } else {
      UnsafeMoveMakesCycle(p, root, dst, src);
      assert Swapped(p, dst, src) == Swapped(p, src, dst);
    }
  }

  // ------------------------------------------------------------------------ the trap

  datatype Option<T> = None | Some(value: T)

  /** c is the child of a that is, or is above, d. */
  ghost predicate ChildTowards(p: Parents, root: nat, c: nat, a: nat, d: nat) {
    c in p && c != root && p[c] == a && Above(p, c, d)
  }

  /** d_ancestor(a, d). */
  ghost predicate AncestorIs(p: Parents, root: nat, a: nat, d: nat, r: Option<nat>) {
    match r
    case Some(c) => ChildTowards(p, root, c, a, d)
    case None => forall c :: c in p ==> !ChildTowards(p, root, c, a, d)
  }

  /** The trap of lock_rename(p1, p2): of two directories one above the other, the child
      of the upper one that leads to the lower one. */
  ghost predicate TrapIs(p: Parents, root: nat, p1: nat, p2: nat, trap: Option<nat>) {
    if p1 == p2 then trap == None
    else if trap == None then AncestorIs(p, root, p2, p1, None) && AncestorIs(p, root, p1, p2, None)
    else AncestorIs(p, root, p2, p1, trap) || AncestorIs(p, root, p1, p2, trap)
  }

  /** There is one such child at most. */
  lemma OneChildTowards(p: Parents, root: nat, c: nat, e: nat, a: nat, d: nat)
    requires Tree(p, root) && d in p && ChildTowards(p, root, c, a, d) && ChildTowards(p, root, e, a, d)
    ensures c == e
  {
    var rank :| Ranked(p, root, rank);
    var m: nat :| Climb(p, d, m) == c;
    var n: nat :| Climb(p, d, n) == e;
    if m < n {
      ClimbOn(p, root, d, m, n - m);
      ClimbFalls(p, root, rank, a, n - m - 1);
    } else if n < m {
      ClimbOn(p, root, d, n, m - n);
      ClimbFalls(p, root, rank, a, m - n - 1);
    }
  }

  /** Two directories are not above each other. */
  lemma NotBothWays(p: Parents, root: nat, a: nat, b: nat, c: nat, e: nat)
    requires Tree(p, root) && a in p && b in p
    requires ChildTowards(p, root, c, a, b)
    ensures !ChildTowards(p, root, e, b, a)
  {
    var rank :| Ranked(p, root, rank);
    var m: nat :| Climb(p, b, m) == c;
    ClimbFalls(p, root, rank, b, m);
    forall n: nat | e in p && e != root && p[e] == b
      ensures Climb(p, a, n) != e
    {
      ClimbFalls(p, root, rank, a, n);
    }
  }

  /** The two tests of renameat against the trap are the condition for a safe move, for
      any source in p2 and any target in p1. */
  lemma TrapTestsIff(p: Parents, root: nat, p1: nat, p2: nat, trap: Option<nat>, src: nat, dst: nat)
    requires Tree(p, root) && p1 in p && p2 in p && TrapIs(p, root, p1, p2, trap)
    requires Movable(p, root, src, dst) && p[src] == p2 && p[dst] == p1
    ensures trap != Some(src) && trap != Some(dst) <==> SafeMove(p, src, dst)
  {
    var rank :| Ranked(p, root, rank);
    NotAboveOwnParent(p, root, rank, src);
    NotAboveOwnParent(p, root, rank, dst);
    assert Above(p, src, p1) <==> ChildTowards(p, root, src, p2, p1);
    assert Above(p, dst, p2) <==> ChildTowards(p, root, dst, p1, p2);
    if trap.Some? && p1 != p2 {
      if AncestorIs(p, root, p2, p1, trap) {
        if Above(p, src, p1) {
          OneChildTowards(p, root, src, trap.value, p2, p1);
        }
        if Above(p, dst, p2) {
          NotBothWays(p, root, p2, p1, trap.value, dst);
        }
      } else {
        if Above(p, dst, p2) {
          OneChildTowards(p, root, dst, trap.value, p1, p2);
        }
        if Above(p, src, p1) {
          NotBothWays(p, root, p1, p2, trap.value, src);
        }
      }
    }
  }
}

/** lock_rename and renameat on the tree. */
module Rename {
  import opened RenameTree

  datatype Error = Success | EINVAL | ENOTEMPTY

  class Dcache {
    const root: nat
    var parent: Parents           // d_parent

    constructor (root: nat)
      ensures this.root == root && Tree(parent, root)
    {
      this.root, parent := root, map[root := root];
      new;
      assert Ranked(parent, root, map[root := 0]);
    }

    /** d_ancestor. */
    method Ancestor(p1: nat, p2: nat) returns (r: Option<nat>)
      requires Tree(parent, root) && p2 in parent
      ensures AncestorIs(parent, root, p1, p2, r)
    {
      ghost var rank :| Ranked(parent, root, rank);
      var p := p2;
      AboveSelf(parent, p2);
      while p != root
        invariant p in parent && Above(parent, p, p2)
        invariant forall c :: ChildTowards(parent, root, c, p1, p2) ==> ChildTowards(parent, root, c, p1, p)
        decreases rank[p]
      {
        if parent[p] == p1 {
          return Some(p);
        }
        GoUp(p1, p2, p);
        p := parent[p];
      }
      NoneTowardsRoot(p1);
      return None;
    }

    lemma GoUp(p1: nat, p2: nat, p: nat)
      requires Tree(parent, root) && p2 in parent && p in parent && p != root && parent[p] != p1 && Above(parent, p, p2)
      ensures Above(parent, parent[p], p2)
      ensures forall c :: ChildTowards(parent, root, c, p1, p) ==> ChildTowards(parent, root, c, p1, parent[p])
    {
      AboveSelf(parent, parent[p]);
      AboveUp(parent, root, parent[p], p);
      AboveChain(parent, root, parent[p], p, p2);
      forall c | ChildTowards(parent, root, c, p1, p)
        ensures ChildTowards(parent, root, c, p1, parent[p])
      {
        AboveUp(parent, root, c, p);
      }
    }

    lemma NoneTowardsRoot(p1: nat)
      requires Tree(parent, root)
      ensures forall c :: c in parent ==> !ChildTowards(parent, root, c, p1, root)
    {
      forall c | Above(parent, c, root)
        ensures c == root
      {
        var n: nat :| Climb(parent, root, n) == c;
        RootStays(parent, root, n);
      }
    }

    /** lock_rename: the trap, and the directories in the order they are locked. */
    method LockRename(p1: nat, p2: nat) returns (trap: Option<nat>, locked: seq<nat>)
      requires Tree(parent, root) && p1 in parent && p2 in parent
      ensures TrapIs(parent, root, p1, p2, trap)
      ensures (set d | d in locked) == {p1, p2} && (p1 != p2 ==> |locked| == 2) && (p1 == p2 ==> |locked| == 1)
      ensures p1 != p2 ==> !Above(parent, locked[1], locked[0])
    {
      if p1 == p2 {
        return None, [p1];
      }
      var p := Ancestor(p2, p1);
      if p.Some? {
        LowerNotAbove(p2, p1, p.value);
        return p, [p2, p1];
      }
      if Above(parent, p2, p1) {
        AboveThroughChild(p2, p1);
      }
      p := Ancestor(p1, p2);
      if p.Some? {
        return p, [p1, p2];
      }
      return None, [p1, p2];
    }

    lemma LowerNotAbove(upper: nat, lower: nat, c: nat)
      requires Tree(parent, root) && upper in parent && lower in parent && ChildTowards(parent, root, c, upper, lower)
      ensures !Above(parent, lower, upper)
    {
      var rank :| Ranked(parent, root, rank);
      var m: nat :| Climb(parent, lower, m) == c;
      ClimbFalls(parent, root, rank, lower, m);
      if Above(parent, lower, upper) {
        var n: nat :| Climb(parent, upper, n) == lower;
        ClimbFalls(parent, root, rank, upper, n);
      }
    }

    lemma AboveThroughChild(a: nat, d: nat)
      requires Tree(parent, root) && a in parent && d in parent && a != d && Above(parent, a, d)
      ensures exists c :: ChildTowards(parent, root, c, a, d)
    {
      var rank :| Ranked(parent, root, rank);
      var n := FirstClimb(parent, root, rank, d, a);
      var c := Climb(parent, d, n - 1);
      ClimbOn(parent, root, d, n - 1, 1);
      assert parent[c] == a && c != a && Above(parent, c, d);
      assert ChildTowards(parent, root, c, a, d);
    }

    /** renameat, from the trap tests on: source and target change their parents, unless
        one of them is the trap. */
    method RenameAt(src: nat, dst: nat) returns (error: Error)
      requires Tree(parent, root) && Movable(parent, root, src, dst)
      modifies this
      ensures Tree(parent, root)
      ensures error == Success <==> SafeMove(old(parent), src, dst)
      ensures error == EINVAL ==> Above(old(parent), src, old(parent)[dst])
      ensures error == ENOTEMPTY ==> Above(old(parent), dst, old(parent)[src])
      ensures parent == if error == Success then old(parent)[src := old(parent)[dst]][dst := old(parent)[src]] else old(parent)
    {
      ghost var p := parent;
      var trap, locked := LockRename(parent[dst], parent[src]);
      TrapTestsIff(p, root, p[dst], p[src], trap, src, dst);
      MoveIff(p, root, src, dst);
      WhichTrap(p[dst], p[src], trap, src, dst);
      if trap == Some(src) {
        return EINVAL;
      }
      if trap == Some(dst) {
        return ENOTEMPTY;
      }
      parent := parent[src := parent[dst]][dst := parent[src]];
      return Success;
    }

    lemma WhichTrap(p1: nat, p2: nat, trap: Option<nat>, src: nat, dst: nat)
      requires Tree(parent, root) && TrapIs(parent, root, p1, p2, trap) && p1 in parent && p2 in parent
      requires Movable(parent, root, src, dst) && parent[src] == p2 && parent[dst] == p1
      ensures trap == Some(src) ==> Above(parent, src, p1)
      ensures trap == Some(dst) ==> Above(parent, dst, p2)
    {
      var rank :| Ranked(parent, root, rank);
      NotAboveOwnParent(parent, root, rank, src);
      NotAboveOwnParent(parent, root, rank, dst);
    }
  }
}

/** Renames among other changes of the tree: only a rename across directories holds
    s_vfs_rename_mutex, and it uses a trap that it found earlier. */
module RenameRuns {
  import opened RenameTree

  /** A rename across directories between lock_rename and its end. */
  datatype Held = Held(newDir: nat, oldDir: nat, trap: Option<nat>)

  datatype State = State(parents: Parents, held: Option<Held>)

  datatype Step =
    | Create(d: nat, dir: nat)
    | Remove(d: nat)
    | MoveWithin(src: nat, dst: nat)                       // one directory, without the mutex
    | Lock(newDir: nat, oldDir: nat, trap: Option<nat>)    // lock_rename of two directories
    | Move(src: nat, dst: nat)                             // the trap tests and d_move
    | Unlock

  ghost predicate Enabled(s: State, root: nat, step: Step) {
    var p := s.parents;
    match step
    case Create(d, dir) => d !in p && dir in p
    case Remove(d) =>
      && d in p && d != root && (forall e :: e in p ==> p[e] != d)
      && (s.held.Some? ==> d != s.held.value.newDir && d != s.held.value.oldDir)
    case MoveWithin(src, dst) => Movable(p, root, src, dst) && p[src] == p[dst]
    case Lock(newDir, oldDir, trap) =>
      s.held == None && newDir in p && oldDir in p && newDir != oldDir && TrapIs(p, root, newDir, oldDir, trap)
    case Move(src, dst) =>
      && s.held.Some? && Movable(p, root, src, dst)
      && p[src] == s.held.value.oldDir && p[dst] == s.held.value.newDir
      && s.held.value.trap != Some(src) && s.held.value.trap != Some(dst)
    case Unlock => s.held.Some?
  }

  function Pruned(p: Parents, d: nat): Parents {
    map e | e in p && e != d :: p[e]
  }

  ghost function Apply(s: State, root: nat, step: Step): State
    requires Enabled(s, root, step)
  {
    var p := s.parents;
    match step
    case Create(d, dir) => s.(parents := p[d := dir])
    case Remove(d) => s.(parents := Pruned(p, d))
    case MoveWithin(src, dst) => s.(parents := Swapped(p, src, dst))
    case Lock(newDir, oldDir, trap) => s.(held := Some(Held(newDir, oldDir, trap)))
    case Move(src, dst) => State(Swapped(p, src, dst), None)
    case Unlock => s.(held := None)
  }

  ghost predicate Inv(s: State, root: nat) {
    && Tree(s.parents, root)
    && (s.held.Some? ==>
          var h := s.held.value;
          h.newDir in s.parents && h.oldDir in s.parents && h.newDir != h.oldDir
          && TrapIs(s.parents, root, h.newDir, h.oldDir, h.trap))
  }

  /** A leaf more or less changes nothing above the others. */
  lemma LeafChangesNothing(p: Parents, root: nat, d: nat, dir: nat, a: nat, x: nat)
    requires Closed(p, root) && d !in p && dir in p && x in p
    ensures Above(p[d := dir], a, x) <==> Above(p, a, x)
    ensures !Above(p, d, x)
  {
    var q := p[d := dir];
    forall n: nat
      ensures Climb(q, x, n) == Climb(p, x, n) && Climb(p, x, n) in p
    {
      forall k | 0 <= k < n
        ensures var c := Climb(p, x, k); c in p && c in q && q[c] == p[c]
      {
        ClimbOn(p, root, x, k, 0);
      }
      ClimbOn(p, root, x, n, 0);
      SameClimb(p, q, root, x, n);
    }
  }

  lemma TrapSame(p: Parents, root: nat, d: nat, dir: nat, p1: nat, p2: nat, trap: Option<nat>)
    requires Closed(p, root) && d !in p && dir in p && p1 in p && p2 in p
    ensures TrapIs(p[d := dir], root, p1, p2, trap) <==> TrapIs(p, root, p1, p2, trap)
  {
    var q := p[d := dir];
    forall c, a, x | x in p && a in p
      ensures ChildTowards(q, root, c, a, x) <==> ChildTowards(p, root, c, a, x)
    {
      LeafChangesNothing(p, root, d, dir, c, x);
    }
  }

  lemma LeafKeepsTree(p: Parents, root: nat, d: nat, dir: nat)
    requires Tree(p, root) && d !in p && dir in p
    ensures Tree(p[d := dir], root)
  {
    var rank :| Ranked(p, root, rank);
    assert Ranked(p[d := dir], root, rank[d := rank[dir] + 1]);
  }

  lemma CreateKeepsInv(s: State, root: nat, d: nat, dir: nat)
    requires Inv(s, root) && Enabled(s, root, Create(d, dir))
    ensures Inv(Apply(s, root, Create(d, dir)), root)
  {
    LeafKeepsTree(s.parents, root, d, dir);
    if s.held.Some? {
      TrapSame(s.parents, root, d, dir, s.held.value.newDir, s.held.value.oldDir, s.held.value.trap);
    }
  }

  lemma PrunedTree(p: Parents, root: nat, d: nat)
    requires Tree(p, root) && d in p && d != root && forall e :: e in p ==> p[e] != d
    ensures Tree(Pruned(p, d), root) && Pruned(p, d)[d := p[d]] == p
  {
    var rank :| Ranked(p, root, rank);
    assert Ranked(Pruned(p, d), root, rank);
  }

  lemma RemoveKeepsInv(s: State, root: nat, d: nat)
    requires Inv(s, root) && Enabled(s, root, Remove(d))
    ensures Inv(Apply(s, root, Remove(d)), root)
  {
    PrunedTree(s.parents, root, d);
    if s.held.Some? {
      TrapSame(Pruned(s.parents, d), root, d, s.parents[d], s.held.value.newDir, s.held.value.oldDir, s.held.value.trap);
    }
  }

  lemma StepKeepsInv(s: State, root: nat, step: Step)
    requires Inv(s, root) && Enabled(s, root, step)
    ensures Inv(Apply(s, root, step), root)
  {
    var p := s.parents;
    match step
    case Create(d, dir) => CreateKeepsInv(s, root, d, dir);
    case Remove(d) => RemoveKeepsInv(s, root, d);
    case MoveWithin(src, dst) =>
      assert Swapped(p, src, dst) == p;
    case Lock(newDir, oldDir, trap) =>
    case Move(src, dst) =>
      TrapTestsIff(p, root, s.held.value.newDir, s.held.value.oldDir, s.held.value.trap, src, dst);
      SafeMoveKeepsTree(p, root, src, dst);
    case Unlock =>
  }

  ghost predicate Feasible(s: State, root: nat, steps: seq<Step>)
    decreases |steps|
  {
    steps == [] || (Enabled(s, root, steps[0]) && Feasible(Apply(s, root, steps[0]), root, steps[1..]))
  }

  ghost function After(s: State, root: nat, steps: seq<Step>): State
    requires Feasible(s, root, steps)
    decreases |steps|
  {
    if steps == [] then s else After(Apply(s, root, steps[0]), root, steps[1..])
  }

  /** Whatever happens between lock_rename and d_move, every dentry still reaches the
      root afterwards. */
  lemma {:induction false} RunKeepsTree(s: State, root: nat, steps: seq<Step>, d: nat)
    requires Inv(s, root) && Feasible(s, root, steps)
    ensures Inv(After(s, root, steps), root)
    ensures d in After(s, root, steps).parents ==> Above(After(s, root, steps).parents, root, d)
    decreases |steps|
  {
    if steps == [] {
      var rank :| Ranked(s.parents, root, rank);
      if d in s.parents {
        ReachesRoot(s.parents, root, rank, d);
      }
    } else {
      StepKeepsInv(s, root, steps[0]);
      RunKeepsTree(Apply(s, root, steps[0]), root, steps[1..], d);
    }
  }
}
