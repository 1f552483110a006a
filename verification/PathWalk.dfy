/** The path walk of fs/namei.c, in ref-walk mode and without mounts. */
module PathWalk {
  import opened PathResolution

  datatype LastType = LAST_NORM | LAST_ROOT | LAST_DOT | LAST_DOTDOT | LAST_BIND

  datatype Step = Done | Symlink(link: nat) | Fail(errno: Errno)

  function TypeOf(c: Comp): LastType {
    match c
    case Dot => LAST_DOT
    case DotDot => LAST_DOTDOT
    case Name(_) => LAST_NORM
  }

  /** struct nameidata, with the two link counters of the process. */
  class Nameidata {
    const fs: Fs
    var path: nat                 // path.dentry, whose inode nd->inode is
    var last: string              // last.name: the text from the last component on
    var lastLen: nat              // last.len
    var lastType: LastType
    var follow: bool              // LOOKUP_FOLLOW
    var directory: bool           // LOOKUP_DIRECTORY
    var depth: nat
    var linkCount: nat            // current->link_count
    var totalLinkCount: nat       // current->total_link_count

    constructor (fs: Fs, follow: bool, directory: bool)
      ensures this.fs == fs && this.follow == follow && this.directory == directory && linkCount == 0
    {
      this.fs, this.follow, this.directory := fs, follow, directory;
      path, last, lastLen, lastType, depth := fs.root, [], 0, LAST_ROOT, 0;
      linkCount, totalLinkCount := 0, 0;
    }

    ghost predicate Valid()
      reads this
    {
      && Tree(fs) && IsDir(fs, path) && lastLen <= |last|
      && totalLinkCount <= MAX_TOTAL_LINKS && depth == linkCount <= MAX_NESTED_LINKS
    }

    ghost predicate LastValid()
      reads this
    {
      lastLen <= |last| && (lastType == LAST_NORM ==> Classify(last[..lastLen]).Name?)
    }

    /** The last component, which link_path_walk leaves to its caller. */
    ghost function Pending(level: nat): seq<Item>
      requires LastValid()
      reads this
    {
      match lastType
      case LAST_NORM => [Item(Classify(last[..lastLen]), level)]
      case LAST_DOT => [Item(Dot, level)]
      case LAST_DOTDOT => [Item(DotDot, level)]
      case _ => []
    }

    predicate LastTrailing()
      reads this
    {
      lastType == LAST_NORM && lastLen < |last|
    }

    /** What the last component means when others follow the link it is from. */
    lemma WalkPending(cur: nat, level: nat, rest: seq<Item>, f: bool, d: bool)
      requires Valid() && LastValid() && cur == path
      requires rest != [] && rest[0].level < level
      ensures var s := Resolve(fs, cur, Pending(level) + rest, f, d, totalLinkCount, MAX_NESTED_LINKS);
              if lastType != LAST_NORM then
                var to := if lastType == LAST_DOTDOT then Parent(fs, cur) else cur;
                IsDir(fs, to) && s == Resolve(fs, to, rest, f, d, totalLinkCount, MAX_NESTED_LINKS)
              else
                match Child(fs, cur, last[..lastLen])
                case None => s == Err(ENOENT)
                case Some(child) =>
                  match KindOf(fs, child)
                  case Link(body) => s == Splice(fs, cur, body, level, rest, f, d, totalLinkCount, MAX_NESTED_LINKS)
                  case Dir => s == Resolve(fs, child, rest, f, d, totalLinkCount, MAX_NESTED_LINKS)
                  case File => s == Err(ENOTDIR)
    {
      if Pending(level) == [] {
        assert Pending(level) + rest == rest;
      } else {
        DotsKeepDir(fs, cur, Pending(level)[0].comp);
        ItemWalked(fs, cur, Pending(level)[0].comp, level, rest, f, d, totalLinkCount, MAX_NESTED_LINKS);
      }
    }

    /** walk_component. */
    method WalkComponent(name: string, kind: LastType, follow: bool) returns (r: Step)
      requires Valid()
      modifies this`path
      ensures kind != LAST_NORM ==>
        r == Done && path == if kind == LAST_DOTDOT then Parent(fs, old(path)) else old(path)
      ensures kind == LAST_NORM ==>
        match Child(fs, old(path), name)
        case None => r == Fail(ENOENT)
        case Some(child) =>
          if KindOf(fs, child).Link? && follow then r == Symlink(child) && path == old(path)
          else r == Done && path == child
    {
      if kind != LAST_NORM {
        if kind == LAST_DOTDOT {
          path := Parent(fs, path);
        }
        return Done;
      }
      var child := Child(fs, path, name);
      if child == None {
        return Fail(ENOENT);
      }
      if KindOf(fs, child.value).Link? && follow {
        return Symlink(child.value);
      }
      path := child.value;
      return Done;
    }

    /** follow_link: start on the body of a link. */
    method FollowLink(link: nat, ghost level: nat, ghost rest: seq<Item>, ghost f: bool, ghost d: bool)
      returns (r: Step)
      requires Valid() && level == linkCount && KindOf(fs, link).Link?
      requires rest != [] ==> rest[0].level < level
      modifies this`path, this`last, this`lastLen, this`lastType, this`depth, this`linkCount, this`totalLinkCount
      ensures !r.Symlink? && linkCount == old(linkCount) && depth == old(depth)
      ensures lastLen <= |last| && old(totalLinkCount) <= totalLinkCount <= MAX_TOTAL_LINKS
      ensures var body := KindOf(fs, link).body;
              var slash := rest == [] && Trailing(body);
              var s := Splice(fs, old(path), body, level, rest, f, d, old(totalLinkCount), MAX_NESTED_LINKS);
              if r.Fail? then s == Err(r.errno)
              else
                && Valid() && LastValid() && totalLinkCount > old(totalLinkCount)
                && LastTrailing() == Trailing(body)
                && s == Resolve(fs, path, Pending(level) + rest, f || slash, d || slash, totalLinkCount, MAX_NESTED_LINKS)
      decreases MAX_TOTAL_LINKS - totalLinkCount, 0
    {
      if totalLinkCount >= MAX_TOTAL_LINKS {
        return Fail(ELOOP);
      }
      totalLinkCount := totalLinkCount + 1;
      lastType := LAST_BIND;
      var body := KindOf(fs, link).body;
      if body != [] && body[0] == '/' {
        path := fs.root;
      }
      ghost var slash := rest == [] && Trailing(body);
      r := LinkPathWalk(body, level, rest, f || slash, d || slash);
    }

    /** The turn of nested_symlink: a link, then the last component of its body. */
    method FollowOnce(link: nat, ghost level: nat, ghost rest: seq<Item>, ghost f: bool, ghost d: bool)
      returns (r: Step)
      requires Valid() && level == linkCount && KindOf(fs, link).Link?
      requires rest != [] && rest[0].level < level
      modifies this`path, this`last, this`lastLen, this`lastType, this`depth, this`linkCount, this`totalLinkCount
      ensures linkCount == old(linkCount) && depth == old(depth)
      ensures lastLen <= |last| && old(totalLinkCount) <= totalLinkCount <= MAX_TOTAL_LINKS
      ensures !r.Fail? ==> totalLinkCount > old(totalLinkCount)
      ensures var s := Splice(fs, old(path), KindOf(fs, link).body, level, rest, f, d, old(totalLinkCount), MAX_NESTED_LINKS);
              Nested(r, s, level, rest, f, d)
      decreases MAX_TOTAL_LINKS - totalLinkCount, 1
    {
      r := FollowLink(link, level, rest, f, d);
      if r.Done? {
        WalkPending(path, level, rest, f, d);
        r := WalkComponent(last[..lastLen], lastType, true);
      }
    }

    /** Where the resolution s is after a turn of nested_symlink. */
    ghost predicate Nested(r: Step, s: Result, level: nat, rest: seq<Item>, f: bool, d: bool)
      reads this
    {
      match r
      case Fail(e) => s == Err(e)
      case Done =>
        s == if IsDir(fs, path) then Resolve(fs, path, rest, f, d, totalLinkCount, MAX_NESTED_LINKS) else Err(ENOTDIR)
      case Symlink(l) =>
        && Valid() && KindOf(fs, l).Link?
        && s == Splice(fs, path, KindOf(fs, l).body, level, rest, f, d, totalLinkCount, MAX_NESTED_LINKS)
    }

    /** nested_symlink: follow a link with more components behind it, and the links
        that its body ends in. */
    method NestedSymlink(link: nat, ghost level: nat, ghost rest: seq<Item>, ghost f: bool, ghost d: bool)
      returns (r: Step)
      requires Valid() && level == linkCount && KindOf(fs, link).Link?
      requires rest != [] && rest[0].level == level
      modifies this`path, this`last, this`lastLen, this`lastType, this`depth, this`linkCount, this`totalLinkCount
      ensures !r.Symlink? && linkCount == old(linkCount) && depth == old(depth)
      ensures lastLen <= |last| && old(totalLinkCount) <= totalLinkCount <= MAX_TOTAL_LINKS
      ensures var s := if level >= MAX_NESTED_LINKS then Err(ELOOP)
                       else Splice(fs, old(path), KindOf(fs, link).body, level + 1, rest, f, d,
                                   old(totalLinkCount), MAX_NESTED_LINKS);
              if r.Fail? then s == Err(r.errno)
              else
                && totalLinkCount > old(totalLinkCount)
                && s == if IsDir(fs, path) then Resolve(fs, path, rest, f, d, totalLinkCount, MAX_NESTED_LINKS)
                        else Err(ENOTDIR)
      decreases MAX_TOTAL_LINKS - totalLinkCount, 2
    {
      if linkCount >= MAX_NESTED_LINKS {
        return Fail(ELOOP);
      }
      depth, linkCount := depth + 1, linkCount + 1;
      r := Symlink(link);
      ghost var s := Splice(fs, path, KindOf(fs, link).body, level + 1, rest, f, d, totalLinkCount, MAX_NESTED_LINKS);
      while r.Symlink?
        invariant totalLinkCount <= MAX_TOTAL_LINKS && totalLinkCount >= old(totalLinkCount)
        invariant depth == linkCount == level + 1 && lastLen <= |last|
        invariant r.Done? ==> totalLinkCount > old(totalLinkCount)
        invariant Nested(r, s, level + 1, rest, f, d)
        decreases if r.Symlink? then 1 + MAX_TOTAL_LINKS - totalLinkCount else 0
      {
        r := FollowOnce(r.link, level + 1, rest, f, d);
      }
      depth, linkCount := depth - 1, linkCount - 1;
    }

    /** The turn of link_path_walk for a component with others behind it. */
    method WalkInner(name: string, kind: LastType, ghost level: nat, ghost rest: seq<Item>, ghost f: bool, ghost d: bool)
      returns (r: Step)
      requires Valid() && level == linkCount && kind == TypeOf(Classify(name))
      requires rest != [] && rest[0].level == level
      modifies this`path, this`last, this`lastLen, this`lastType, this`depth, this`linkCount, this`totalLinkCount
      ensures !r.Symlink? && linkCount == old(linkCount) && depth == old(depth)
      ensures lastLen <= |last| && old(totalLinkCount) <= totalLinkCount <= MAX_TOTAL_LINKS
      ensures var s := Resolve(fs, old(path), [Item(Classify(name), level)] + rest, f, d, old(totalLinkCount), MAX_NESTED_LINKS);
              if r.Fail? then s == Err(r.errno)
              else Valid() && s == Resolve(fs, path, rest, f, d, totalLinkCount, MAX_NESTED_LINKS)
      decreases MAX_TOTAL_LINKS - totalLinkCount, 3
    {
      ItemWalked(fs, path, Classify(name), level, rest, f, d, totalLinkCount, MAX_NESTED_LINKS);
      DotsKeepDir(fs, path, Classify(name));
      r := WalkComponent(name, kind, true);
      if r.Fail? {
        return;
      }
      if r.Symlink? {
        r := NestedSymlink(r.link, level, rest, f, d);
        if r.Fail? {
          return;
        }
      }
      if !IsDir(fs, path) {
        return Fail(ENOTDIR);
      }
    }

    /** The turn of link_path_walk for a component of a name that has more. */
    method WalkFirst(name: string, len: nat, kind: LastType, ghost level: nat, ghost rest: seq<Item>, ghost f: bool, ghost d: bool)
      returns (r: Step)
      requires Valid() && level == linkCount && (rest != [] ==> rest[0].level < level)
      requires name != [] && name[0] != '/' && SkipSlashes(Behind(name)) != []
      requires len == NameLen(name) && kind == TypeOf(First(name))
      modifies this`path, this`last, this`lastLen, this`lastType, this`depth, this`linkCount, this`totalLinkCount
      ensures !r.Symlink? && linkCount == old(linkCount) && depth == old(depth)
      ensures lastLen <= |last| && old(totalLinkCount) <= totalLinkCount <= MAX_TOTAL_LINKS
      ensures var next := SkipSlashes(Behind(name));
              var s := Resolve(fs, old(path), Items(Comps(name), level) + rest, f, d, old(totalLinkCount), MAX_NESTED_LINKS);
              && Trailing(next) == Trailing(name)
              && if r.Fail? then s == Err(r.errno)
                 else Valid() && s == Resolve(fs, path, Items(Comps(next), level) + rest, f, d, totalLinkCount, MAX_NESTED_LINKS)
      decreases MAX_TOTAL_LINKS - totalLinkCount, 4
    {
      FirstItem(name, level, rest);
      r := WalkInner(name[..len], kind, level, Items(Comps(SkipSlashes(Behind(name))), level) + rest, f, d);
    }

    /** The last component of a name is left to the caller. */
    method StopAtLast(name: string, len: nat, kind: LastType, ghost level: nat, ghost rest: seq<Item>)
      requires name != [] && name[0] != '/' && SkipSlashes(Behind(name)) == []
      requires len == NameLen(name) && kind == TypeOf(First(name))
      modifies this`last, this`lastLen, this`lastType
      ensures LastValid() && LastTrailing() == Trailing(name)
      ensures Items(Comps(name), level) + rest == Pending(level) + rest
    {
      FirstItem(name, level, rest);
      last, lastLen, lastType := name, len, kind;
    }

    /** link_path_walk: everything but the last component. */
    method LinkPathWalk(name0: string, ghost level: nat, ghost rest: seq<Item>, ghost f: bool, ghost d: bool)
      returns (r: Step)
      requires Valid() && level == linkCount && lastType in {LAST_ROOT, LAST_BIND}
      requires rest != [] ==> rest[0].level < level
      modifies this`path, this`last, this`lastLen, this`lastType, this`depth, this`linkCount, this`totalLinkCount
      ensures !r.Symlink? && linkCount == old(linkCount) && depth == old(depth)
      ensures lastLen <= |last| && old(totalLinkCount) <= totalLinkCount <= MAX_TOTAL_LINKS
      ensures var s := Resolve(fs, old(path), Items(Comps(name0), level) + rest, f, d, old(totalLinkCount), MAX_NESTED_LINKS);
              if r.Fail? then s == Err(r.errno)
              else
                && Valid() && LastValid()
                && LastTrailing() == Trailing(name0)
                && s == Resolve(fs, path, Pending(level) + rest, f, d, totalLinkCount, MAX_NESTED_LINKS)
      decreases MAX_TOTAL_LINKS - totalLinkCount, 5
    {
      ghost var s := Resolve(fs, path, Items(Comps(name0), level) + rest, f, d, totalLinkCount, MAX_NESTED_LINKS);
      var name := SkipSlashes(name0);
      Skipped(name0);
      if name == [] {
        assert Pending(level) == [];
        return Done;
      }
      while true
        invariant Valid() && linkCount == level && totalLinkCount >= old(totalLinkCount)
        invariant name != [] && name[0] != '/' && Trailing(name) == Trailing(name0)
        invariant s == Resolve(fs, path, Items(Comps(name), level) + rest, f, d, totalLinkCount, MAX_NESTED_LINKS)
        decreases |name|
      {
        var len := NameLen(name);
        var kind := TypeOf(Classify(name[..len]));
        var next := SkipSlashes(name[len..]);
        if next == [] {
          StopAtLast(name, len, kind, level, rest);
          return Done;
        }
        r := WalkFirst(name, len, kind, level, rest, f, d);
        if r.Fail? {
          return;
        }
        name := next;
      }
    }

    /** lookup_last: the last component of the path. */
    method LookupLast() returns (r: Step)
      requires Valid() && LastValid()
      modifies this`path, this`follow, this`directory
      ensures follow == (old(follow) || LastTrailing()) && directory == (old(directory) || LastTrailing())
      ensures lastType != LAST_NORM ==>
        r == Done && path == if lastType == LAST_DOTDOT then Parent(fs, old(path)) else old(path)
      ensures lastType == LAST_NORM ==>
        match Child(fs, old(path), last[..lastLen])
        case None => r == Fail(ENOENT)
        case Some(child) =>
          if KindOf(fs, child).Link? && follow then r == Symlink(child) && path == old(path)
          else r == Done && path == child
    {
      if lastType == LAST_NORM && lastLen < |last| {
        follow, directory := true, true;
      }
      r := WalkComponent(last[..lastLen], lastType, follow);
    }

    /** What the last component means at the end of the path. */
    lemma WalkLast(cur: nat, f: bool, d: bool)
      requires Valid() && LastValid() && cur == path
      ensures var s := Resolve(fs, cur, Pending(0), f, d, totalLinkCount, MAX_NESTED_LINKS);
              if lastType != LAST_NORM then
                var to := if lastType == LAST_DOTDOT then Parent(fs, cur) else cur;
                s == Resolve(fs, to, [], f, d, totalLinkCount, MAX_NESTED_LINKS)
              else
                match Child(fs, cur, last[..lastLen])
                case None => s == Err(ENOENT)
                case Some(child) =>
                  if KindOf(fs, child).Link? && f then
                    s == Splice(fs, cur, KindOf(fs, child).body, 0, [], f, d, totalLinkCount, MAX_NESTED_LINKS)
                  else s == Resolve(fs, child, [], f, d, totalLinkCount, MAX_NESTED_LINKS)
    {
      if Pending(0) != [] {
        assert Pending(0) == [Pending(0)[0]] + [];
        ItemWalked(fs, cur, Pending(0)[0].comp, 0, [], f, d, totalLinkCount, MAX_NESTED_LINKS);
      }
    }

    /** Where the resolution s is after lookup_last. */
    ghost predicate Looked(r: Step, s: Result)
      reads this
    {
      match r
      case Fail(e) => s == Err(e)
      case Done => s == Resolve(fs, path, [], follow, directory, totalLinkCount, MAX_NESTED_LINKS)
      case Symlink(l) =>
        && Valid() && KindOf(fs, l).Link?
        && s == Splice(fs, path, KindOf(fs, l).body, 0, [], follow, directory, totalLinkCount, MAX_NESTED_LINKS)
    }

    /** lookup_last, once the rest of the path has been walked. */
    method LookAtLast(ghost s: Result, ghost f: bool, ghost d: bool) returns (r: Step)
      requires Valid() && LastValid()
      requires f == (follow || LastTrailing()) && d == (directory || LastTrailing())
      requires s == Resolve(fs, path, Pending(0) + [], f, d, totalLinkCount, MAX_NESTED_LINKS)
      modifies this`path, this`follow, this`directory
      ensures Looked(r, s)
    {
      assert Pending(0) + [] == Pending(0);
      WalkLast(path, f, d);
      r := LookupLast();
    }

    /** The turn of path_lookupat: a link at the end of the path. */
    method FollowLast(link: nat) returns (r: Step)
      requires Valid() && linkCount == 0 && KindOf(fs, link).Link?
      modifies this
      ensures linkCount == depth == 0
      ensures lastLen <= |last| && old(totalLinkCount) <= totalLinkCount <= MAX_TOTAL_LINKS
      ensures !r.Fail? ==> totalLinkCount > old(totalLinkCount)
      ensures Looked(r, Splice(fs, old(path), KindOf(fs, link).body, 0, [], old(follow), old(directory),
                               old(totalLinkCount), MAX_NESTED_LINKS))
    {
      ghost var slash := Trailing(KindOf(fs, link).body);
      ghost var s := Splice(fs, path, KindOf(fs, link).body, 0, [], follow, directory, totalLinkCount, MAX_NESTED_LINKS);
      r := FollowLink(link, 0, [], follow, directory);
      if r.Done? {
        r := LookAtLast(s, follow || slash, directory || slash);
      }
    }

    /** path_lookupat: the dentry of a path name. */
    method PathLookupat(pwd: nat, name: string) returns (r: Result)
      requires Tree(fs) && IsDir(fs, pwd) && linkCount == 0
      modifies this
      ensures linkCount == 0
      ensures r == Resolve(fs, Base(fs, pwd, name), Items(Comps(name), 0), old(follow) || Trailing(name),
                           old(directory) || Trailing(name), 0, MAX_NESTED_LINKS)
    {
      lastType, last, lastLen, depth := LAST_ROOT, [], 0, 0;
      path := if name != [] && name[0] == '/' then fs.root else pwd;
      totalLinkCount := 0;
      ghost var f, d := follow || Trailing(name), directory || Trailing(name);
      ghost var s := Resolve(fs, path, Items(Comps(name), 0), f, d, 0, MAX_NESTED_LINKS);
      assert Items(Comps(name), 0) + [] == Items(Comps(name), 0);
      var step := LinkPathWalk(name, 0, [], f, d);
      if step.Done? {
        step := LookAtLast(s, f, d);
        while step.Symlink?
          invariant totalLinkCount <= MAX_TOTAL_LINKS && linkCount == 0
          invariant Looked(step, s)
          decreases if step.Symlink? then 1 + MAX_TOTAL_LINKS - totalLinkCount else 0
        {
          step := FollowLast(step.link);
        }
      }
      if step.Fail? {
        return Err(step.errno);
      }
      if directory && !IsDir(fs, path) {
        return Err(ENOTDIR);
      }
      return Ok(path);
    }
  }
}
