/** The inode hash (fs/inode.c): what holds whatever creators, users and evictors do,
    each of their locked regions being one step. */
module InodeHash {
  /** A superblock and an inode number. */
  datatype Key = Key(sb: nat, ino: nat)

  datatype Life = Alive | WillFree | Freeing      // I_WILL_FREE and I_FREEING

  /** struct inode: i_count, I_NEW, and whether it is in the hash. */
  datatype Inode = Inode(key: Key, hashed: bool, isNew: bool, life: Life, count: nat)

  /** The inodes by name, the chain of the hash from its head on, and the references
      that are held, by a name of each, with the inode. */
  datatype State = State(inodes: map<nat, Inode>, chain: seq<nat>, refs: map<nat, nat>)

  predicate Live(st: State, i: nat) {
    i in st.inodes && st.inodes[i].hashed && st.inodes[i].life == Alive
  }

  function RefsTo(refs: map<nat, nat>, i: nat): set<nat> {
    set h | h in refs && refs[h] == i
  }

  /** The chain holds the hashed inodes. */
  predicate ChainOk(st: State) {
    && (forall k :: 0 <= k < |st.chain| ==> st.chain[k] in st.inodes && st.inodes[st.chain[k]].hashed)
    && (forall i :: i in st.inodes && st.inodes[i].hashed ==> i in st.chain)
  }

  /** i_count counts the references, and who is being freed has none. */
  predicate CountsOk(st: State) {
    && (forall i :: i in st.inodes ==>
          st.inodes[i].count == |RefsTo(st.refs, i)| && (st.inodes[i].life != Alive ==> st.inodes[i].count == 0))
    && (forall h :: h in st.refs ==> st.refs[h] in st.inodes)
  }

  /** One live hashed inode per key. */
  ghost predicate Unique(st: State) {
    forall i, j :: Live(st, i) && Live(st, j) && st.inodes[i].key == st.inodes[j].key ==> i == j
  }

  ghost predicate Inv(st: State) {
    ChainOk(st) && CountsOk(st) && Unique(st)
  }

  // --------------------------------------------------------------- scanning the chain

  /** find_inode_fast: the first inode of the key; it must be waited for if it is being
      freed. */
  datatype Found = Nothing | Wait | Use(i: nat)

  function FindFast(st: State, chain: seq<nat>, key: Key): (f: Found)
    ensures f.Use? ==> f.i in st.inodes
  {
    if chain == [] then Nothing
    else if chain[0] !in st.inodes || st.inodes[chain[0]].key != key then FindFast(st, chain[1..], key)
    else if st.inodes[chain[0]].life != Alive then Wait
    else Use(chain[0])
  }

  /** The scan of insert_inode_locked, which passes over those that are being freed. */
  function FindLive(st: State, chain: seq<nat>, key: Key): (f: Found)
    ensures f.Use? ==> f.i in st.inodes
  {
    if chain == [] then Nothing
    else if chain[0] in st.inodes && st.inodes[chain[0]].key == key && st.inodes[chain[0]].life == Alive then Use(chain[0])
    else FindLive(st, chain[1..], key)
  }

  lemma {:induction false} ScansFind(st: State, chain: seq<nat>, key: Key)
    requires forall k :: 0 <= k < |chain| ==> chain[k] in st.inodes && st.inodes[chain[k]].hashed
    ensures FindFast(st, chain, key) == Nothing <==> forall i :: i in chain ==> st.inodes[i].key != key
    ensures FindLive(st, chain, key) == Nothing <==>
              forall i :: i in chain ==> st.inodes[i].key != key || st.inodes[i].life != Alive
    ensures var f := FindFast(st, chain, key); f.Use? ==> Live(st, f.i) && st.inodes[f.i].key == key
    ensures var f := FindLive(st, chain, key); f.Use? ==> Live(st, f.i) && st.inodes[f.i].key == key
    ensures FindLive(st, chain, key) != Wait
  {
    if chain != [] {
      ScansFind(st, chain[1..], key);
      assert forall i :: i in chain <==> i == chain[0] || i in chain[1..];
    }
  }

  /** The first inode of the key decides: it is used if it is alive, referenced or not, and
      waited for otherwise. */
  lemma {:induction false} FirstDecides(st: State, chain: seq<nat>, key: Key, k: nat)
    requires k < |chain| && chain[k] in st.inodes && st.inodes[chain[k]].key == key
    requires forall j :: 0 <= j < k ==> chain[j] in st.inodes && st.inodes[chain[j]].key != key
    ensures FindFast(st, chain, key) == if st.inodes[chain[k]].life == Alive then Use(chain[k]) else Wait
    decreases k
  {
    if k > 0 {
      FirstDecides(st, chain[1..], key, k - 1);
    }
  }

  /** The first one that is alive decides. */
  lemma {:induction false} FirstLiveDecides(st: State, chain: seq<nat>, key: Key, k: nat)
    requires k < |chain| && chain[k] in st.inodes && st.inodes[chain[k]].key == key && st.inodes[chain[k]].life == Alive
    requires forall j :: 0 <= j < k ==>
               chain[j] in st.inodes && (st.inodes[chain[j]].key != key || st.inodes[chain[j]].life != Alive)
    ensures FindLive(st, chain, key) == Use(chain[k])
    decreases k
  {
    if k > 0 {
      FirstLiveDecides(st, chain[1..], key, k - 1);
    }
  }

  // ------------------------------------------------------------------------------ steps

  datatype Drop = Keep | WriteFirst | FreeNow     // what iput_final decides

  datatype Step =
    | Iget(h: nat, key: Key)                      // a lookup that finds: __iget
    | IgetCreate(h: nat, i: nat, key: Key)        // iget_locked inserts what it allocated
    | NewInode(h: nat, i: nat, key: Key)          // new_inode, not hashed
    | InsertLocked(h: nat, i: nat)                // insert_inode_locked inserts
    | InsertMeets(h: nat, i: nat, g: nat)         // insert_inode_locked takes the one it met
    | UnlockNew(i: nat)                           // unlock_new_inode
    | Iput(h: nat, drop: Drop)
    | Written(i: nat)                             // write_inode_now in iput_final is over
    | Prune(i: nat)                               // from the LRU list
    | Evict(i: nat)                               // unhashed and destroyed

  /** The code's own tests, and who may call: insert_inode_locked has a reference to an
      inode that is not hashed. */
  predicate Enabled(st: State, s: Step) {
    match s
    case Iget(h, key) => h !in st.refs && FindFast(st, st.chain, key).Use?
    case IgetCreate(h, i, key) => h !in st.refs && i !in st.inodes && FindFast(st, st.chain, key) == Nothing
    case NewInode(h, i, _) => h !in st.refs && i !in st.inodes
    case InsertLocked(h, i) => Unhashed(st, h, i) && FindLive(st, st.chain, st.inodes[i].key) == Nothing
    case InsertMeets(h, i, g) => Unhashed(st, h, i) && g !in st.refs && FindLive(st, st.chain, st.inodes[i].key).Use?
    case UnlockNew(i) => i in st.inodes && st.inodes[i].isNew
    case Iput(h, _) => h in st.refs
    case Written(i) => i in st.inodes && st.inodes[i].life == WillFree
    case Prune(i) => i in st.inodes && st.inodes[i].life == Alive && st.inodes[i].count == 0
    case Evict(i) => i in st.inodes && st.inodes[i].life == Freeing
  }

  predicate Unhashed(st: State, h: nat, i: nat) {
    h in st.refs && st.refs[h] == i && i in st.inodes && !st.inodes[i].hashed
  }

  /** Another reference to i. */
  function Got(st: State, h: nat, i: nat): State
    requires i in st.inodes
  {
    st.(inodes := st.inodes[i := st.inodes[i].(count := st.inodes[i].count + 1)], refs := st.refs[h := i])
  }

  function SetLife(st: State, i: nat, life: Life): State
    requires i in st.inodes
  {
    st.(inodes := st.inodes[i := st.inodes[i].(life := life)])
  }

  function Less<V>(m: map<nat, V>, k: nat): map<nat, V> {
    map x | x in m && x != k :: m[x]
  }

  function Without(chain: seq<nat>, i: nat): seq<nat> {
    if chain == [] then [] else (if chain[0] == i then [] else [chain[0]]) + Without(chain[1..], i)
  }

  function Dropped(st: State, h: nat, drop: Drop): State
    requires h in st.refs
  {
    var i := st.refs[h];
    if i !in st.inodes then st.(refs := Less(st.refs, h))
    else
      var x := st.inodes[i];
      var count := if x.count > 0 then x.count - 1 else 0;
      var life := if count > 0 || drop == Keep then x.life else if drop == WriteFirst then WillFree else Freeing;
      st.(inodes := st.inodes[i := x.(count := count, life := life)], refs := Less(st.refs, h))
  }

  function Hashed(st: State, i: nat): State
    requires i in st.inodes
  {
    st.(inodes := st.inodes[i := st.inodes[i].(hashed := true, isNew := true)], chain := [i] + st.chain)
  }

  function Apply(st: State, s: Step): State
    requires Enabled(st, s)
  {
    match s
    case Iget(h, key) => Got(st, h, FindFast(st, st.chain, key).i)
    case IgetCreate(h, i, key) =>
      State(st.inodes[i := Inode(key, true, true, Alive, 1)], [i] + st.chain, st.refs[h := i])
    case NewInode(h, i, key) =>
      st.(inodes := st.inodes[i := Inode(key, false, false, Alive, 1)], refs := st.refs[h := i])
    case InsertLocked(_, i) => Hashed(st, i)
    case InsertMeets(_, i, g) => Got(st, g, FindLive(st, st.chain, st.inodes[i].key).i)
    case UnlockNew(i) => st.(inodes := st.inodes[i := st.inodes[i].(isNew := false)])
    case Iput(h, drop) => Dropped(st, h, drop)
    case Written(i) => SetLife(st, i, Freeing)
    case Prune(i) => SetLife(st, i, Freeing)
    case Evict(i) => State(Less(st.inodes, i), Without(st.chain, i), st.refs)
  }

  // ------------------------------------------------------------------------ invariants

  lemma RefGained(refs: map<nat, nat>, h: nat, i: nat, j: nat)
    requires h !in refs
    ensures |RefsTo(refs[h := i], j)| == |RefsTo(refs, j)| + if j == i then 1 else 0
  {
    assert RefsTo(refs[h := i], j) == if j == i then RefsTo(refs, j) + {h} else RefsTo(refs, j);
  }

  lemma RefLost(refs: map<nat, nat>, h: nat, j: nat)
    requires h in refs
    ensures |RefsTo(refs, j)| == |RefsTo(Less(refs, h), j)| + if j == refs[h] then 1 else 0
  {
    assert RefsTo(refs, j) == if j == refs[h] then RefsTo(Less(refs, h), j) + {h} else RefsTo(Less(refs, h), j);
  }

  lemma {:induction false} InWithout(chain: seq<nat>, i: nat)
    ensures forall j :: j in Without(chain, i) <==> j in chain && j != i
  {
    if chain != [] {
      InWithout(chain[1..], i);
      assert forall j :: j in chain <==> j == chain[0] || j in chain[1..];
    }
  }

  lemma GotKeepsInv(st: State, h: nat, i: nat)
    requires Inv(st) && h !in st.refs && Live(st, i)
    ensures Inv(Got(st, h, i))
  {
    var t := Got(st, h, i);
    forall j | j in t.inodes
      ensures t.inodes[j].count == |RefsTo(t.refs, j)|
    {
      RefGained(st.refs, h, i, j);
    }
  }

  /** A new inode, hashed or not, that no one else has seen. */
  lemma NewKeepsInv(st: State, h: nat, i: nat, x: Inode)
    requires Inv(st) && h !in st.refs && i !in st.inodes && x.life == Alive && x.count == 1
    requires x.hashed ==> forall j :: Live(st, j) ==> st.inodes[j].key != x.key
    ensures Inv(State(st.inodes[i := x], if x.hashed then [i] + st.chain else st.chain, st.refs[h := i]))
  {
    var refs := st.refs[h := i];
    assert RefsTo(st.refs, i) == {};
    forall j | j in st.inodes || j == i
      ensures |RefsTo(refs, j)| == |RefsTo(st.refs, j)| + if j == i then 1 else 0
    {
      RefGained(st.refs, h, i, j);
    }
  }

  /** An inode without new references, and no more alive than before. */
  lemma SameKeepsInv(st: State, i: nat, x: Inode)
    requires Inv(st) && i in st.inodes
    requires x.key == st.inodes[i].key && x.hashed == st.inodes[i].hashed && x.count == st.inodes[i].count
    requires x.life == st.inodes[i].life || (x.life != Alive && x.count == 0)
    ensures Inv(st.(inodes := st.inodes[i := x]))
  {
  }

  lemma InsertKeepsInv(st: State, h: nat, i: nat)
    requires Inv(st) && Enabled(st, InsertLocked(h, i))
    ensures Inv(Apply(st, InsertLocked(h, i)))
  {
    assert h in RefsTo(st.refs, i) && st.inodes[i].life == Alive;
    ScansFind(st, st.chain, st.inodes[i].key);
    HashedKeepsChain(st, i);
    HashedStaysUnique(st, i);
  }

  lemma HashedKeepsChain(st: State, i: nat)
    requires ChainOk(st) && i in st.inodes
    ensures ChainOk(Hashed(st, i))
  {
    assert forall j :: j in Hashed(st, i).chain <==> j == i || j in st.chain;
  }

  lemma HashedStaysUnique(st: State, i: nat)
    requires Unique(st) && i in st.inodes && !st.inodes[i].hashed
    requires forall j :: Live(st, j) ==> st.inodes[j].key != st.inodes[i].key
    ensures Unique(Hashed(st, i))
  {
    assert forall j :: Live(Hashed(st, i), j) ==> j == i || Live(st, j);
  }

  lemma IputKeepsInv(st: State, h: nat, drop: Drop)
    requires Inv(st) && h in st.refs
    ensures Inv(Dropped(st, h, drop))
  {
    var t := Dropped(st, h, drop);
    assert h in RefsTo(st.refs, st.refs[h]);
    forall j | j in t.inodes
      ensures t.inodes[j].count == |RefsTo(t.refs, j)|
    {
      RefLost(st.refs, h, j);
    }
  }

  lemma EvictKeepsInv(st: State, i: nat)
    requires Inv(st) && Enabled(st, Evict(i))
    ensures Inv(Apply(st, Evict(i)))
  {
    var t := Apply(st, Evict(i));
    InWithout(st.chain, i);
    forall k | 0 <= k < |t.chain|
      ensures t.chain[k] in t.inodes && t.inodes[t.chain[k]].hashed
    {
      assert t.chain[k] in t.chain;
    }
    forall h | h in t.refs
      ensures t.refs[h] in t.inodes
    {
      assert h in RefsTo(st.refs, t.refs[h]);
    }
  }

  lemma StepKeepsInv(st: State, s: Step)
    requires Inv(st) && Enabled(st, s)
    ensures Inv(Apply(st, s))
  {
    match s
    case Iget(h, key) =>
      ScansFind(st, st.chain, key);
      GotKeepsInv(st, h, FindFast(st, st.chain, key).i);
    case IgetCreate(h, i, key) =>
      ScansFind(st, st.chain, key);
      NewKeepsInv(st, h, i, Inode(key, true, true, Alive, 1));
    case NewInode(h, i, key) => NewKeepsInv(st, h, i, Inode(key, false, false, Alive, 1));
    case InsertLocked(h, i) => InsertKeepsInv(st, h, i);
    case InsertMeets(_, i, g) =>
      ScansFind(st, st.chain, st.inodes[i].key);
      GotKeepsInv(st, g, FindLive(st, st.chain, st.inodes[i].key).i);
    case UnlockNew(i) => SameKeepsInv(st, i, st.inodes[i].(isNew := false));
    case Iput(h, drop) => IputKeepsInv(st, h, drop);
    case Written(i) => SameKeepsInv(st, i, st.inodes[i].(life := Freeing));
    case Prune(i) => SameKeepsInv(st, i, st.inodes[i].(life := Freeing));
    case Evict(i) => EvictKeepsInv(st, i);
  }

  const Start: State := State(map[], [], map[])

  lemma StartOk()
    ensures Inv(Start)
  {
  }

  predicate Feasible(st: State, steps: seq<Step>)
    decreases |steps|
  {
    steps == [] || (Enabled(st, steps[0]) && Feasible(Apply(st, steps[0]), steps[1..]))
  }

  function After(st: State, steps: seq<Step>): State
    requires Feasible(st, steps)
    decreases |steps|
  {
    if steps == [] then st else After(Apply(st, steps[0]), steps[1..])
  }

  /** In every reachable state a key has one live hashed inode at most. */
  lemma {:induction false} RunKeepsInv(st: State, steps: seq<Step>)
    requires Inv(st) && Feasible(st, steps)
    ensures var inv := Inv(After(st, steps)); inv
    decreases |steps|
  {
    if steps != [] {
      StepKeepsInv(st, steps[0]);
      RunKeepsInv(Apply(st, steps[0]), steps[1..]);
    }
  }

  /** Who holds hashed inodes of one key holds the same inode, however the creators
      raced. */
  lemma SameForAll(st: State, h1: nat, h2: nat)
    requires Inv(st) && h1 in st.refs && h2 in st.refs
    ensures var i, j := st.refs[h1], st.refs[h2];
            && i in st.inodes && j in st.inodes
            && (st.inodes[i].hashed && st.inodes[j].hashed && st.inodes[i].key == st.inodes[j].key ==> i == j)
  {
    assert h1 in RefsTo(st.refs, st.refs[h1]) && h2 in RefsTo(st.refs, st.refs[h2]);
    assert st.inodes[st.refs[h1]].count > 0 && st.inodes[st.refs[h2]].count > 0;
    assert st.inodes[st.refs[h1]].hashed ==> Live(st, st.refs[h1]);
    assert st.inodes[st.refs[h2]].hashed ==> Live(st, st.refs[h2]);
  }
}

/** The locked regions on the hash itself. */
module InodeCache {
  import opened InodeHash

  class InodeTable {
    var inodes: map<nat, Inode>
    var chain: seq<nat>           // a hash chain, from its head on
    ghost var refs: map<nat, nat>

    constructor ()
      ensures View() == Start
    {
      inodes, chain, refs := map[], [], map[];
    }

    ghost function View(): State
      reads this
    {
      State(inodes, chain, refs)
    }

    /** A pass of find_inode_fast over the chain. */
    method FindInodeFast(key: Key) returns (f: Found)
      requires Inv(View())
      ensures f == FindFast(View(), chain, key)
    {
      var k := 0;
      assert chain[0..] == chain;
      while k < |chain|
        invariant k <= |chain| && FindFast(View(), chain[k..], key) == FindFast(View(), chain, key)
      {
        assert chain[k..][1..] == chain[k + 1..];
        var inode := inodes[chain[k]];
        if inode.key == key {
          return if inode.life != Alive then Wait else Use(chain[k]);
        }
        k := k + 1;
      }
      return Nothing;
    }

    /** The inode i of the key, hashed and alive, has one more reference, and all else is
        as before. */
    ghost predicate Taken(inodes0: map<nat, Inode>, refs0: map<nat, nat>, i: nat, key: Key, h: nat)
      requires i in inodes0
      reads this
    {
      var x := inodes0[i];
      && x.key == key && x.hashed && x.life == Alive
      && inodes == inodes0[i := Inode(key, true, x.isNew, Alive, x.count + 1)] && refs == refs0[h := i]
    }

    method Get(i: nat, ghost h: nat)
      requires i in inodes
      modifies this`inodes, this`refs
      ensures View() == Got(old(View()), h, i)
      ensures inodes == old(inodes)[i := old(inodes[i]).(count := old(inodes[i]).count + 1)]
      ensures refs == old(refs)[h := i] && chain == old(chain)
    {
      inodes := inodes[i := inodes[i].(count := inodes[i].count + 1)];
      refs := refs[h := i];
    }

    /** The first region of iget_locked. */
    method IgetLookup(key: Key, ghost h: nat) returns (f: Found)
      requires Inv(View()) && h !in refs
      modifies this`inodes, this`refs
      ensures f == FindFast(old(View()), old(chain), key)
      ensures if f.Use? then Enabled(old(View()), Iget(h, key)) && View() == Apply(old(View()), Iget(h, key))
              else View() == old(View())
      ensures f.Use? ==> f.i in old(inodes) && Taken(old(inodes), old(refs), f.i, key, h)
      ensures f == Nothing ==> forall i :: i in inodes && inodes[i].hashed ==> inodes[i].key != key
    {
      f := FindInodeFast(key);
      ScansFind(View(), chain, key);
      if f.Use? {
        Get(f.i, h);
      }
    }

    /** The second region of iget_locked, with the inode i that it allocated meanwhile. */
    method IgetInsert(key: Key, i: nat, ghost h: nat) returns (f: Found)
      requires Inv(View()) && h !in refs && i !in inodes
      modifies this
      ensures f == FindFast(old(View()), old(chain), key)
      ensures f == Nothing ==>
        Enabled(old(View()), IgetCreate(h, i, key)) && View() == Apply(old(View()), IgetCreate(h, i, key))
      ensures f.Use? ==> Enabled(old(View()), Iget(h, key)) && View() == Apply(old(View()), Iget(h, key))
      ensures f == Wait ==> View() == old(View())
      ensures f.Use? ==> f.i in old(inodes) && Taken(old(inodes), old(refs), f.i, key, h)
      ensures f == Nothing ==>
        && (forall j :: j in old(inodes) && old(inodes)[j].hashed ==> old(inodes)[j].key != key)
        && inodes == old(inodes)[i := Inode(key, true, true, Alive, 1)] && chain == [i] + old(chain)
        && refs == old(refs)[h := i]
    {
      f := IgetLookup(key, h);
      if f == Nothing {
        inodes := inodes[i := Inode(key, true, true, Alive, 1)];
        chain := [i] + chain;
        refs := refs[h := i];
      }
    }

    /** The region of insert_inode_locked: the inode goes into the hash unless there is a
        live one. */
    method InsertInodeLocked(i: nat, ghost h: nat, ghost g: nat) returns (f: Found)
      requires Inv(View()) && h in refs && refs[h] == i && i in inodes && !inodes[i].hashed && g !in refs
      modifies this
      ensures f == FindLive(old(View()), old(chain), old(inodes[i].key))
      ensures f == Nothing ==>
        Enabled(old(View()), InsertLocked(h, i)) && View() == Apply(old(View()), InsertLocked(h, i))
      ensures f.Use? ==>
        Enabled(old(View()), InsertMeets(h, i, g)) && View() == Apply(old(View()), InsertMeets(h, i, g))
      ensures f.Use? ==> f.i in old(inodes) && Taken(old(inodes), old(refs), f.i, old(inodes[i].key), g) && chain == old(chain)
      ensures f != Wait && (f == Nothing <==> forall j :: j in old(inodes) && old(inodes)[j].hashed ==>
                                       old(inodes)[j].key != old(inodes[i].key) || old(inodes)[j].life != Alive)
      ensures f == Nothing ==>
        && inodes == old(inodes)[i := old(inodes[i]).(hashed := true, isNew := true)] && chain == [i] + old(chain)
        && refs == old(refs)
    {
      ScansFind(View(), chain, inodes[i].key);
      f := FindLiveInode(inodes[i].key);
      if f == Nothing {
        inodes := inodes[i := inodes[i].(hashed := true, isNew := true)];
        chain := [i] + chain;
      } else {
        Get(f.i, g);
      }
    }

    /** Its pass over the chain. */
    method FindLiveInode(key: Key) returns (f: Found)
      requires ChainOk(View())
      ensures f == FindLive(View(), chain, key)
    {
      var k := 0;
      assert chain[0..] == chain;
      while k < |chain| && (inodes[chain[k]].key != key || inodes[chain[k]].life != Alive)
        invariant k <= |chain| && FindLive(View(), chain[k..], key) == FindLive(View(), chain, key)
      {
        assert chain[k..][1..] == chain[k + 1..];
        k := k + 1;
      }
      f := if k == |chain| then Nothing else Use(chain[k]);
    }

    /** iput, and iput_final when it was the last reference, up to the write-out. */
    method PutInode(i: nat, drop: Drop, ghost h: nat)
      requires Inv(View()) && h in refs && refs[h] == i
      modifies this`inodes, this`refs
      ensures View() == Apply(old(View()), Iput(h, drop))
      ensures i in old(inodes) && old(inodes[i]).count > 0 && old(inodes[i]).life == Alive && chain == old(chain)
      ensures var last := old(inodes[i]).count == 1;
              inodes == old(inodes)[i := old(inodes[i]).(
                count := old(inodes[i]).count - 1,
                life := if last && drop == WriteFirst then WillFree else if last && drop == FreeNow then Freeing else Alive)]
      ensures h !in refs && refs.Keys == old(refs).Keys - {h} && forall k :: k in refs ==> refs[k] == old(refs)[k]
    {
      assert h in RefsTo(refs, i);
      var x := inodes[i];
      x := x.(count := x.count - 1);
      if x.count == 0 {
        if drop == WriteFirst {
          x := x.(life := WillFree);
        } else if drop == FreeNow {
          x := x.(life := Freeing);
        }
      }
      inodes := inodes[i := x];
      refs := Less(refs, h);
    }
  }
}
