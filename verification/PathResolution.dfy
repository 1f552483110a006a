/** Path names and what they resolve to: the specification of the path walk. */
module PathResolution {
  const MAX_TOTAL_LINKS: nat := 40
  const MAX_NESTED_LINKS: nat := 8

  datatype Option<T> = None | Some(value: T)

  datatype Errno = ENOENT | ENOTDIR | ELOOP

  datatype Result = Ok(dentry: nat) | Err(errno: Errno)

  datatype Kind = Dir | File | Link(body: string)

  /** A finite directory tree; dentries are numbers. */
  datatype Fs = Fs(root: nat, kinds: map<nat, Kind>, up: map<nat, nat>, entries: map<(nat, string), nat>)

  function KindOf(fs: Fs, d: nat): Kind {
    if d in fs.kinds then fs.kinds[d] else File
  }

  predicate IsDir(fs: Fs, d: nat) {
    KindOf(fs, d).Dir?
  }

  /** follow_dotdot without mounts: the root is its own parent. */
  function Parent(fs: Fs, d: nat): nat {
    if d != fs.root && d in fs.up then fs.up[d] else d
  }

  function Child(fs: Fs, d: nat, name: string): Option<nat> {
    if (d, name) in fs.entries then Some(fs.entries[(d, name)]) else None
  }

  ghost predicate Tree(fs: Fs) {
    IsDir(fs, fs.root) && forall d :: d in fs.up && IsDir(fs, d) ==> IsDir(fs, fs.up[d])
  }

  // ------------------------------------------------------------------- path names

  datatype Comp = Dot | DotDot | Name(s: string)

  function SkipSlashes(name: string): (n: string)
    ensures |n| <= |name| && (n != [] ==> n[0] != '/')
  {
    if name != [] && name[0] == '/' then SkipSlashes(name[1..]) else name
  }

  /** hash_name: the length of the first component. */
  function NameLen(name: string): (k: nat)
    ensures k <= |name| && (name != [] && name[0] != '/' ==> k > 0)
    ensures k < |name| ==> name[k] == '/'
  {
    if name == [] || name[0] == '/' then 0 else 1 + NameLen(name[1..])
  }

  function Classify(s: string): Comp {
    if s == "." then Dot else if s == ".." then DotDot else Name(s)
  }

  /** The first component of a name without leading slashes, and the text behind it. */
  function First(n: string): Comp {
    Classify(n[..NameLen(n)])
  }

  function Behind(n: string): (b: string)
    requires n != [] && n[0] != '/'
    ensures |b| < |n| && (b != [] ==> b[0] == '/')
  {
    n[NameLen(n)..]
  }

  function Comps(name: string): seq<Comp>
    decreases |name|
  {
    var n := SkipSlashes(name);
    if n == [] then [] else [First(n)] + Comps(Behind(n))
  }

  /** The last component is a name with slashes behind it. */
  predicate Trailing(name: string)
    decreases |name|
  {
    var n := SkipSlashes(name);
    n != [] && if SkipSlashes(Behind(n)) == [] then First(n).Name? && Behind(n) != [] else Trailing(Behind(n))
  }

  /** Where the walk of a link's body starts. */
  function Base(fs: Fs, cur: nat, body: string): nat {
    if body != [] && body[0] == '/' then fs.root else cur
  }

  function DotsFrom(fs: Fs, cur: nat, c: Comp): nat {
    if c == DotDot then Parent(fs, cur) else cur
  }

  // ----------------------------------------------- pathname resolution as in POSIX

  /** Pathname resolution as in section 4.13 of the Base Definitions of POSIX.1-2017:
      the body of a link is put in front of the remaining path name, and a name with
      a slash behind it must be a directory.  At most `links` links are followed. */
  function Posix(fs: Fs, cur: nat, path: string, follow: bool, dir: bool, links: nat): Result
    decreases links, |path|
  {
    var p := SkipSlashes(path);
    if p == [] then
      if dir && !IsDir(fs, cur) then Err(ENOTDIR) else Ok(cur)
    else if !First(p).Name? then
      Posix(fs, DotsFrom(fs, cur, First(p)), Behind(p), follow, dir, links)
    else
      match Child(fs, cur, First(p).s)
      case None => Err(ENOENT)
      case Some(child) =>
        var kind := KindOf(fs, child);
        if kind.Link? && (Behind(p) != [] || follow) then
          if links == 0 then Err(ELOOP)
          else Posix(fs, Base(fs, cur, kind.body), kind.body + Behind(p), follow, dir, links - 1)
        else if Behind(p) != [] && !kind.Dir? then Err(ENOTDIR)
        else Posix(fs, child, Behind(p), follow, dir, links)
  }

  /** A result other than ELOOP does not depend on the limit. */
  lemma {:induction false} PosixAnyLimit(fs: Fs, cur: nat, path: string, follow: bool, dir: bool,
                                         few: nat, many: nat)
    requires few <= many && Posix(fs, cur, path, follow, dir, few) != Err(ELOOP)
    ensures Posix(fs, cur, path, follow, dir, many) == Posix(fs, cur, path, follow, dir, few)
    decreases few, |path|
  {
    var p := SkipSlashes(path);
    if p == [] {
    } else if !First(p).Name? {
      PosixAnyLimit(fs, DotsFrom(fs, cur, First(p)), Behind(p), follow, dir, few, many);
    } else if Child(fs, cur, First(p).s).Some? {
      var child := Child(fs, cur, First(p).s).value;
      var kind := KindOf(fs, child);
      if kind.Link? && (Behind(p) != [] || follow) {
        PosixAnyLimit(fs, Base(fs, cur, kind.body), kind.body + Behind(p), follow, dir, few - 1, many - 1);
      } else if !(Behind(p) != [] && !kind.Dir?) {
        PosixAnyLimit(fs, child, Behind(p), follow, dir, few, many);
      }
    }
  }

  // -------------------------------------------------- resolution with both limits

  /** A component that is still to be walked, and how many links with more behind
      them it is nested in. */
  datatype Item = Item(comp: Comp, level: nat)

  function Items(cs: seq<Comp>, level: nat): (t: seq<Item>)
    ensures |t| == |cs|
  {
    if cs == [] then [] else [Item(cs[0], level)] + Items(cs[1..], level)
  }

  function LinksLeft(total: nat): nat {
    if total <= MAX_TOTAL_LINKS then MAX_TOTAL_LINKS - total else 0
  }

  /** Another component of the same name or body follows the first one. */
  predicate MoreOfSame(items: seq<Item>) {
    |items| > 1 && items[1].level == items[0].level
  }

  /** Resolution of a list of components with the kernel's two limits: 40 links in
      all, and `nest` of them inside each other. */
  function Resolve(fs: Fs, cur: nat, items: seq<Item>, follow: bool, dir: bool, total: nat, nest: nat): Result
    decreases LinksLeft(total), |items| + 1
  {
    if items == [] then
      if dir && !IsDir(fs, cur) then Err(ENOTDIR) else Ok(cur)
    else if !items[0].comp.Name? then
      Resolve(fs, DotsFrom(fs, cur, items[0].comp), items[1..], follow, dir, total, nest)
    else
      match Child(fs, cur, items[0].comp.s)
      case None => Err(ENOENT)
      case Some(child) =>
        var kind := KindOf(fs, child);
        if kind.Link? && (|items| > 1 || follow) then
          if MoreOfSame(items) && items[0].level >= nest then Err(ELOOP)
          else Splice(fs, cur, kind.body, if MoreOfSame(items) then items[0].level + 1 else items[0].level,
                      items[1..], follow, dir, total, nest)
        else if |items| > 1 && !kind.Dir? then Err(ENOTDIR)
        else Resolve(fs, child, items[1..], follow, dir, total, nest)
  }

  /** Put the body of a link in front of the rest. */
  function Splice(fs: Fs, cur: nat, body: string, level: nat, rest: seq<Item>,
                  follow: bool, dir: bool, total: nat, nest: nat): Result
    decreases LinksLeft(total), 0
  {
    if total >= MAX_TOTAL_LINKS then Err(ELOOP)
    else
      var slash := rest == [] && Trailing(body);
      Resolve(fs, Base(fs, cur, body), Items(Comps(body), level) + rest, follow || slash, dir || slash,
              total + 1, nest)
  }

  /** One component, with the rest behind it. */
  lemma ItemWalked(fs: Fs, cur: nat, c: Comp, level: nat, rest: seq<Item>,
                   follow: bool, dir: bool, total: nat, nest: nat)
    ensures var s := Resolve(fs, cur, [Item(c, level)] + rest, follow, dir, total, nest);
            var more := rest != [] && rest[0].level == level;
            if !c.Name? then s == Resolve(fs, DotsFrom(fs, cur, c), rest, follow, dir, total, nest)
            else
              match Child(fs, cur, c.s)
              case None => s == Err(ENOENT)
              case Some(child) =>
                var kind := KindOf(fs, child);
                if kind.Link? && (rest != [] || follow) then
                  s == if more && level >= nest then Err(ELOOP)
                       else Splice(fs, cur, kind.body, if more then level + 1 else level, rest, follow, dir, total, nest)
                else s == if rest != [] && !kind.Dir? then Err(ENOTDIR)
                          else Resolve(fs, child, rest, follow, dir, total, nest)
  {
    assert ([Item(c, level)] + rest)[1..] == rest;
  }

  /** The first component of a name, with the others behind it. */
  lemma FirstItem(name: string, level: nat, rest: seq<Item>)
    requires name != [] && name[0] != '/'
    ensures var next := SkipSlashes(Behind(name));
            && Items(Comps(name), level) + rest == [Item(First(name), level)] + (Items(Comps(next), level) + rest)
            && (next == [] ==> Comps(name) == [First(name)])
            && (next != [] ==> Comps(next) != [] && Trailing(next) == Trailing(name))
  {
    var next := SkipSlashes(Behind(name));
    assert SkipSlashes(next) == next;
    assert Comps(next) == Comps(Behind(name));
    assert Comps(name)[1..] == Comps(next);
  }

  lemma Skipped(name: string)
    ensures Comps(SkipSlashes(name)) == Comps(name) && Trailing(SkipSlashes(name)) == Trailing(name)
    ensures SkipSlashes(name) == [] ==> Comps(name) == [] && !Trailing(name)
  {
    assert SkipSlashes(SkipSlashes(name)) == SkipSlashes(name);
  }

  lemma DotsKeepDir(fs: Fs, cur: nat, c: Comp)
    requires Tree(fs) && IsDir(fs, cur)
    ensures IsDir(fs, DotsFrom(fs, cur, c))
  {
  }

  // ------------------------------------------------- the kernel's walk is the POSIX one

  function CompsOf(items: seq<Item>): (cs: seq<Comp>)
    ensures |cs| == |items|
  {
    if items == [] then [] else [items[0].comp] + CompsOf(items[1..])
  }

  predicate LevelsUpTo(items: seq<Item>, total: nat) {
    forall i :: 0 <= i < |items| ==> items[i].level <= total
  }

  predicate LastIsName(cs: seq<Comp>) {
    cs != [] && cs[|cs| - 1].Name?
  }

  lemma Assoc<T>(a: seq<T>, b: seq<T>, c: seq<T>)
    ensures (a + b) + c == a + (b + c)
  {
  }

  lemma CompsOfHead(i: Item, items: seq<Item>)
    ensures CompsOf([i] + items) == [i.comp] + CompsOf(items)
  {
    assert ([i] + items)[1..] == items;
  }

  lemma {:induction false} CompsOfBoth(a: seq<Item>, b: seq<Item>)
    ensures CompsOf(a + b) == CompsOf(a) + CompsOf(b)
  {
    if a == [] {
      assert a + b == b;
    } else {
      var more := a[1..];
      CompsOfBoth(more, b);
      CompsOfHead(a[0], more + b);
      Assoc([a[0]], more, b);
      Assoc([a[0].comp], CompsOf(more), CompsOf(b));
      assert [a[0]] + more == a;
    }
  }

  lemma {:induction false} CompsOfLevel(cs: seq<Comp>, level: nat)
    ensures CompsOf(Items(cs, level)) == cs
  {
    if cs != [] {
      CompsOfLevel(cs[1..], level);
      assert Items(cs, level)[1..] == Items(cs[1..], level);
    }
  }

  lemma CompsOfItems(cs: seq<Comp>, level: nat, rest: seq<Item>)
    ensures CompsOf(Items(cs, level) + rest) == cs + CompsOf(rest)
  {
    CompsOfLevel(cs, level);
    CompsOfBoth(Items(cs, level), rest);
  }

  lemma {:induction false} LevelOfItems(cs: seq<Comp>, level: nat)
    ensures forall i :: 0 <= i < |cs| ==> Items(cs, level)[i].level == level
  {
    if cs != [] {
      LevelOfItems(cs[1..], level);
    }
  }

  lemma {:induction false} SkipJoin(a: string, b: string)
    ensures SkipSlashes(a + b) == if SkipSlashes(a) == [] then SkipSlashes(b) else SkipSlashes(a) + b
  {
    if a == [] {
      assert a + b == b;
    } else {
      assert (a + b)[1..] == a[1..] + b;
      if a[0] == '/' {
        SkipJoin(a[1..], b);
      }
    }
  }

  lemma {:induction false} NameJoin(n: string, b: string)
    requires b != [] ==> b[0] == '/'
    ensures NameLen(n + b) == NameLen(n)
  {
    if n == [] {
      assert n + b == b;
    } else {
      assert (n + b)[1..] == n[1..] + b;
      NameJoin(n[1..], b);
    }
  }

  lemma FirstJoin(n: string, b: string)
    requires n != [] && n[0] != '/' && (b != [] ==> b[0] == '/')
    ensures First(n + b) == First(n) && Behind(n + b) == Behind(n) + b
  {
    NameJoin(n, b);
    assert (n + b)[..NameLen(n)] == n[..NameLen(n)];
  }

  /** The components of a text are those of its parts. */
  lemma {:induction false} CompsJoin(a: string, b: string)
    requires b != [] ==> b[0] == '/'
    ensures Comps(a + b) == Comps(a) + Comps(b)
    decreases |a|
  {
    var n := SkipSlashes(a);
    SkipJoin(a, b);
    if n != [] {
      FirstJoin(n, b);
      CompsJoin(Behind(n), b);
      assert [First(n)] + (Comps(Behind(n)) + Comps(b)) == ([First(n)] + Comps(Behind(n))) + Comps(b);
    } else {
      assert Comps(a) == [] && Comps(a) + Comps(b) == Comps(b);
    }
  }

  lemma {:induction false} TrailingJoin(a: string, b: string)
    requires b != [] ==> b[0] == '/'
    ensures Comps(b) != [] ==> Trailing(a + b) == Trailing(b)
    ensures Comps(b) == [] && LastIsName(Comps(a)) ==> Trailing(a + b) == (Trailing(a) || b != [])
    decreases |a|
  {
    var n := SkipSlashes(a);
    SkipJoin(a, b);
    if n != [] {
      FirstJoin(n, b);
      SkipJoin(Behind(n), b);
      TrailingJoin(Behind(n), b);
    }
  }

  /** Text and flags of the plain resolution go with the components and flags of the
      kernel's. */
  predicate Alike(items: seq<Item>, f: bool, d: bool, text: string, follow: bool, dir: bool) {
    && CompsOf(items) == Comps(text)
    && (LastIsName(Comps(text)) ==> f == (follow || Trailing(text)) && d == (dir || Trailing(text)))
  }

  lemma AlikeBehind(items: seq<Item>, f: bool, d: bool, text: string, follow: bool, dir: bool)
    requires Alike(items, f, d, text, follow, dir) && items != []
    ensures var p := SkipSlashes(text);
            && p != [] && items[0].comp == First(p)
            && CompsOf(items[1..]) == Comps(Behind(p))
            && (|items| > 1 ==> Alike(items[1..], f, d, Behind(p), follow, dir) && Behind(p) != [])
            && (|items| == 1 ==> (First(p).Name? ==> Trailing(text) == (Behind(p) != []) && LastIsName(Comps(text)))
                                 && Comps(Behind(p)) == [] && SkipSlashes(Behind(p)) == [])
  {
    var p := SkipSlashes(text);
    assert Comps(text) == [First(p)] + Comps(Behind(p));
    assert Comps(text)[1..] == Comps(Behind(p));
    assert Comps(Behind(p)) == [] <==> SkipSlashes(Behind(p)) == [];
    if |items| > 1 {
      assert Comps(text)[|Comps(text)| - 1] == Comps(Behind(p))[|Comps(Behind(p))| - 1];
    }
  }

  lemma AlikeSpliced(items: seq<Item>, f: bool, d: bool, text: string, follow: bool, dir: bool,
                     body: string, level: nat)
    requires Alike(items, f, d, text, follow, dir) && items != [] && items[0].comp.Name?
    ensures SkipSlashes(text) != []
    ensures var slash := items[1..] == [] && Trailing(body);
            Alike(Items(Comps(body), level) + items[1..], f || slash, d || slash,
                  body + Behind(SkipSlashes(text)), follow, dir)
  {
    AlikeBehind(items, f, d, text, follow, dir);
    var b := Behind(SkipSlashes(text));
    CompsOfItems(Comps(body), level, items[1..]);
    CompsJoin(body, b);
    TrailingJoin(body, b);
    if |items| == 1 {
      assert Comps(body) + Comps(b) == Comps(body);
    }
  }

  /** The kernel's resolution is the plain one, with the links that are left, or gives
      up with ELOOP because of its limit on nesting; then the plain one does, too, with no
      more links than may be nested. */
  lemma {:induction false} ResolveIsPosix(fs: Fs, cur: nat, items: seq<Item>, f: bool, d: bool, total: nat, nest: nat,
                                          text: string, follow: bool, dir: bool)
    requires Tree(fs) && IsDir(fs, cur) && total <= MAX_TOTAL_LINKS && LevelsUpTo(items, total)
    requires Alike(items, f, d, text, follow, dir)
    ensures var r := Resolve(fs, cur, items, f, d, total, nest);
            || r == Posix(fs, cur, text, follow, dir, MAX_TOTAL_LINKS - total)
            || (r == Err(ELOOP) && nest < MAX_TOTAL_LINKS
                && (total > nest || Posix(fs, cur, text, follow, dir, nest - total) == Err(ELOOP)))
    decreases LinksLeft(total), |items| + 1, 1
  {
    var p := SkipSlashes(text);
    if items == [] {
      assert Comps(text) == [] && p == [];
    } else if items[0].comp.Name? {
      NameIsPosix(fs, cur, items, f, d, total, nest, text, follow, dir);
    } else {
      AlikeBehind(items, f, d, text, follow, dir);
      DotsKeepDir(fs, cur, First(p));
      ResolveIsPosix(fs, DotsFrom(fs, cur, First(p)), items[1..], f, d, total, nest, Behind(p), follow, dir);
    }
  }

  /** The same when a name is the next component. */
  lemma {:induction false} NameIsPosix(fs: Fs, cur: nat, items: seq<Item>, f: bool, d: bool, total: nat, nest: nat,
                                       text: string, follow: bool, dir: bool)
    requires Tree(fs) && IsDir(fs, cur) && total <= MAX_TOTAL_LINKS && LevelsUpTo(items, total)
    requires Alike(items, f, d, text, follow, dir) && items != [] && items[0].comp.Name?
    ensures var r := Resolve(fs, cur, items, f, d, total, nest);
            || r == Posix(fs, cur, text, follow, dir, MAX_TOTAL_LINKS - total)
            || (r == Err(ELOOP) && nest < MAX_TOTAL_LINKS
                && (total > nest || Posix(fs, cur, text, follow, dir, nest - total) == Err(ELOOP)))
    decreases LinksLeft(total), |items| + 1, 0
  {
    var p := SkipSlashes(text);
    AlikeBehind(items, f, d, text, follow, dir);
    if Child(fs, cur, First(p).s).Some? {
      var child := Child(fs, cur, First(p).s).value;
      var kind := KindOf(fs, child);
      if kind.Link? && (|items| > 1 || f) {
        if total < MAX_TOTAL_LINKS && !(MoreOfSame(items) && items[0].level >= nest) {
          var level := if MoreOfSame(items) then items[0].level + 1 else items[0].level;
          SpliceIsPosix(fs, cur, items, f, d, total, nest, text, follow, dir, kind.body, level);
        }
      } else if |items| > 1 && kind.Dir? {
        ResolveIsPosix(fs, child, items[1..], f, d, total, nest, Behind(p), follow, dir);
      }
    }
  }

  lemma {:induction false} SpliceIsPosix(fs: Fs, cur: nat, items: seq<Item>, f: bool, d: bool, total: nat, nest: nat,
                                         text: string, follow: bool, dir: bool, body: string, level: nat)
    requires Tree(fs) && IsDir(fs, cur) && total < MAX_TOTAL_LINKS && LevelsUpTo(items, total)
    requires Alike(items, f, d, text, follow, dir) && items != [] && items[0].comp.Name? && level <= total + 1
    ensures SkipSlashes(text) != []
    ensures var r := Splice(fs, cur, body, level, items[1..], f, d, total, nest);
            || r == Posix(fs, Base(fs, cur, body), body + Behind(SkipSlashes(text)), follow, dir,
                          MAX_TOTAL_LINKS - total - 1)
            || (r == Err(ELOOP) && nest < MAX_TOTAL_LINKS
                && (total >= nest || Posix(fs, Base(fs, cur, body), body + Behind(SkipSlashes(text)), follow, dir,
                                           nest - total - 1) == Err(ELOOP)))
    decreases LinksLeft(total), 0, 0
  {
    var slash := items[1..] == [] && Trailing(body);
    AlikeSpliced(items, f, d, text, follow, dir, body, level);
    LevelOfItems(Comps(body), level);
    ResolveIsPosix(fs, Base(fs, cur, body), Items(Comps(body), level) + items[1..], f || slash, d || slash,
                   total + 1, nest, body + Behind(SkipSlashes(text)), follow, dir);
  }

  /** A path walk that does not end in ELOOP ends at the dentry, or with the error, of
      plain resolution, whatever number of links that may follow from 40 on.  It does not
      end in ELOOP if plain resolution follows no more links than may be nested; and
      without the limit on nesting the two are the same also for ELOOP. */
  lemma WalkIsPosix(fs: Fs, pwd: nat, name: string, follow: bool, dir: bool, nest: nat, links: nat)
    requires Tree(fs) && IsDir(fs, pwd) && links >= MAX_TOTAL_LINKS
    ensures var r := Resolve(fs, Base(fs, pwd, name), Items(Comps(name), 0), follow || Trailing(name),
                             dir || Trailing(name), 0, nest);
            && (r == Err(ELOOP) || r == Posix(fs, Base(fs, pwd, name), name, follow, dir, links))
            && (Posix(fs, Base(fs, pwd, name), name, follow, dir, nest) != Err(ELOOP) && nest <= MAX_TOTAL_LINKS ==>
                  r == Posix(fs, Base(fs, pwd, name), name, follow, dir, links))
            && (nest >= MAX_TOTAL_LINKS ==> r == Posix(fs, Base(fs, pwd, name), name, follow, dir, MAX_TOTAL_LINKS))
  {
    var items := Items(Comps(name), 0);
    assert items + [] == items && Comps(name) + CompsOf([]) == Comps(name);
    CompsOfItems(Comps(name), 0, []);
    LevelOfItems(Comps(name), 0);
    ResolveIsPosix(fs, Base(fs, pwd, name), items, follow || Trailing(name), dir || Trailing(name), 0, nest,
                   name, follow, dir);
    var few := Posix(fs, Base(fs, pwd, name), name, follow, dir, MAX_TOTAL_LINKS);
    if few != Err(ELOOP) {
      PosixAnyLimit(fs, Base(fs, pwd, name), name, follow, dir, MAX_TOTAL_LINKS, links);
    }
    var nested := Posix(fs, Base(fs, pwd, name), name, follow, dir, nest);
    if nested != Err(ELOOP) && nest <= MAX_TOTAL_LINKS {
      PosixAnyLimit(fs, Base(fs, pwd, name), name, follow, dir, nest, MAX_TOTAL_LINKS);
    }
  }
}
