/** What path names mean, said of the tree alone: the walk of a name that is written out
    of components, and of a link. */
module PathMeaning {
  import opened PathResolution
  import opened PathWalk

  function Slashes(n: nat): (s: string)
    ensures |s| == n && forall i :: 0 <= i < n ==> s[i] == '/'
  {
    seq(n, i => '/')
  }

  /** How a component is written. */
  function Written(c: Comp): string {
    match c
    case Dot => "."
    case DotDot => ".."
    case Name(s) => s
  }

  /** A name is not empty, has no slash in it and is not one of the dots. */
  predicate CompOk(c: Comp) {
    c.Name? ==> c.s != "" && '/' !in c.s && c.s != "." && c.s != ".."
  }

  /** Components with so many slashes behind each of them, one at least between two. */
  predicate TextOk(cs: seq<Comp>, gaps: seq<nat>) {
    && |gaps| == |cs| && (forall i :: 0 <= i < |cs| ==> CompOk(cs[i]))
    && forall i :: 0 <= i < |gaps| - 1 ==> gaps[i] > 0
  }

  function Text(cs: seq<Comp>, gaps: seq<nat>): string
    requires |gaps| == |cs|
  {
    if cs == [] then "" else Written(cs[0]) + (Slashes(gaps[0]) + Text(cs[1..], gaps[1..]))
  }

  // ------------------------------------------------------------------- what is parsed

  lemma {:induction false} SkipThem(n: nat, t: string)
    requires t != "" ==> t[0] != '/'
    ensures SkipSlashes(Slashes(n) + t) == t
  {
    if n == 0 {
      assert Slashes(0) + t == t;
    } else {
      assert (Slashes(n) + t)[1..] == Slashes(n - 1) + t;
      SkipThem(n - 1, t);
    }
  }

  lemma {:induction false} NameEnds(s: string, b: string)
    requires '/' !in s && (b != "" ==> b[0] == '/')
    ensures NameLen(s + b) == |s|
  {
    if s == "" {
      assert s + b == b;
    } else {
      assert (s + b)[1..] == s[1..] + b;
      NameEnds(s[1..], b);
    }
  }

  lemma WrittenIsParsed(c: Comp)
    requires CompOk(c)
    ensures Written(c) != "" && '/' !in Written(c) && Classify(Written(c)) == c
  {
  }

  /** The text of components without slashes in front starts with the first of them. */
  lemma FirstOfText(c: Comp, b: string)
    requires CompOk(c) && (b != "" ==> b[0] == '/')
    ensures var t := Written(c) + b; t != "" && t[0] != '/' && First(t) == c && Behind(t) == b
  {
    WrittenIsParsed(c);
    NameEnds(Written(c), b);
    var t := Written(c) + b;
    assert t[0] == Written(c)[0] && t[..|Written(c)|] == Written(c) && t[|Written(c)|..] == b;
  }

  lemma TextStarts(cs: seq<Comp>, gaps: seq<nat>)
    requires TextOk(cs, gaps) && cs != []
    ensures Text(cs, gaps) != "" && Text(cs, gaps)[0] != '/'
  {
    WrittenIsParsed(cs[0]);
  }

  /** However many slashes there are, the components are parsed out of the text that was
      written of them; it ends in a slash behind a name exactly if one was written there. */
  lemma {:induction false} TextIsParsed(lead: nat, cs: seq<Comp>, gaps: seq<nat>)
    requires TextOk(cs, gaps)
    ensures Comps(Slashes(lead) + Text(cs, gaps)) == cs
    ensures Trailing(Slashes(lead) + Text(cs, gaps)) <==>
            cs != [] && cs[|cs| - 1].Name? && gaps[|cs| - 1] > 0
    decreases |cs|
  {
    var t := Text(cs, gaps);
    if cs == [] {
      SkipThem(lead, "");
    } else {
      TextStarts(cs, gaps);
      SkipThem(lead, t);
      var more := Text(cs[1..], gaps[1..]);
      if |cs| > 1 {
        TextStarts(cs[1..], gaps[1..]);
        SkipThem(gaps[0], more);
      } else {
        SkipThem(gaps[0], "");
        assert more == "";
      }
      var b := Slashes(gaps[0]) + more;
      assert b != "" ==> b[0] == '/';
      FirstOfText(cs[0], b);
      TextIsParsed(gaps[0], cs[1..], gaps[1..]);
      assert t == Written(cs[0]) + b;
      assert cs == [cs[0]] + cs[1..];
    }
  }

  // --------------------------------------------------------------------- what is found

  /** Where a component leads from a directory: to itself, to its parent, which is itself
      for the root, or to the entry of that name. */
  function Next(fs: Fs, cur: nat, c: Comp): Option<nat> {
    match c
    case Dot => Some(cur)
    case DotDot => Some(if cur == fs.root || cur !in fs.up then cur else fs.up[cur])
    case Name(s) => if (cur, s) in fs.entries then Some(fs.entries[(cur, s)]) else None
  }

  predicate Directory(fs: Fs, d: nat) {
    d in fs.kinds && fs.kinds[d] == Dir
  }

  predicate SymbolicLink(fs: Fs, d: nat) {
    d in fs.kinds && fs.kinds[d].Link?
  }

  /** One component after the other, each but the last of them to a directory. */
  function Fold(fs: Fs, cur: nat, cs: seq<Comp>): Result
    decreases |cs|
  {
    if cs == [] then Ok(cur)
    else
      match Next(fs, cur, cs[0])
      case None => Err(ENOENT)
      case Some(next) => if |cs| > 1 && !Directory(fs, next) then Err(ENOTDIR) else Fold(fs, next, cs[1..])
  }

  /** No link is met on the way, or only at the end of it when that is not followed. */
  predicate NoLinks(fs: Fs, cur: nat, cs: seq<Comp>, follow: bool)
    decreases |cs|
  {
    cs == [] ||
    match Next(fs, cur, cs[0])
    case None => true
    case Some(next) =>
      if SymbolicLink(fs, next) then |cs| == 1 && !follow else NoLinks(fs, next, cs[1..], follow)
  }

  function MustBeDirectory(fs: Fs, r: Result): Result {
    if r.Ok? && !Directory(fs, r.dentry) then Err(ENOTDIR) else r
  }

  lemma {:induction false} ResolveFolds(fs: Fs, cur: nat, cs: seq<Comp>, follow: bool, dir: bool, nest: nat)
    requires Tree(fs) && (|cs| > 0 ==> Directory(fs, cur)) && NoLinks(fs, cur, cs, follow)
    ensures Resolve(fs, cur, Items(cs, 0), follow, dir, 0, nest)
            == if dir then MustBeDirectory(fs, Fold(fs, cur, cs)) else Fold(fs, cur, cs)
    decreases |cs|
  {
    if cs != [] {
      var next := Next(fs, cur, cs[0]);
      DotsKeepDir(fs, cur, cs[0]);
      if next.Some? && (|cs| == 1 || Directory(fs, next.value)) {
        ResolveFolds(fs, next.value, cs[1..], follow, dir, nest);
      }
    }
  }

  /** path_lookupat on a name that is written of components, absolute if there are slashes
      in front of it: where no link is to be followed it ends where the components lead. */
  method LookupOfText(nd: Nameidata, pwd: nat, lead: nat, cs: seq<Comp>, gaps: seq<nat>) returns (r: Result)
    requires Tree(nd.fs) && IsDir(nd.fs, pwd) && nd.linkCount == 0 && TextOk(cs, gaps)
    requires var trailing := cs != [] && cs[|cs| - 1].Name? && gaps[|cs| - 1] > 0;
             NoLinks(nd.fs, if lead > 0 then nd.fs.root else pwd, cs, nd.follow || trailing)
    modifies nd
    ensures var trailing := cs != [] && cs[|cs| - 1].Name? && gaps[|cs| - 1] > 0;
            var found := Fold(nd.fs, if lead > 0 then nd.fs.root else pwd, cs);
            r == if old(nd.directory) || trailing then MustBeDirectory(nd.fs, found) else found
  {
    var name := Slashes(lead) + Text(cs, gaps);
    TextIsParsed(lead, cs, gaps);
    if lead == 0 && cs != [] {
      TextStarts(cs, gaps);
      assert name == Text(cs, gaps);
    }
    assert Base(nd.fs, pwd, name) == if lead > 0 then nd.fs.root else pwd;
    ResolveFolds(nd.fs, Base(nd.fs, pwd, name), cs, nd.follow || Trailing(name), nd.directory || Trailing(name),
                 MAX_NESTED_LINKS);
    r := nd.PathLookupat(pwd, name);
  }

  /** A link in a name means its body in place of it: from the root if that starts with a
      slash, otherwise from the directory that the link is in. */
  lemma LinkIsItsBody(fs: Fs, cur: nat, s: string, behind: string, body: string, follow: bool, dir: bool, links: nat)
    requires CompOk(Name(s)) && (behind != "" ==> behind[0] == '/') && (behind != "" || follow)
    requires (cur, s) in fs.entries && fs.entries[(cur, s)] in fs.kinds && fs.kinds[fs.entries[(cur, s)]] == Link(body)
    ensures Posix(fs, cur, s + behind, follow, dir, links)
            == if links == 0 then Err(ELOOP)
               else Posix(fs, if body != "" && body[0] == '/' then fs.root else cur, body + behind, follow, dir, links - 1)
  {
    FirstOfText(Name(s), behind);
    assert SkipSlashes(s + behind) == s + behind;
  }

  lemma Dots()
    ensures Comps(".") == [Dot] && Comps("..") == [DotDot] && Comps("...") == [Name("...")]
  {
    OneComponent(Dot);
    OneComponent(DotDot);
    OneComponent(Name("..."));
  }

  lemma OneComponent(c: Comp)
    requires CompOk(c)
    ensures Comps(Written(c)) == [c]
  {
    TextIsParsed(0, [c], [0]);
    assert Slashes(0) + Text([c], [0]) == Written(c);
  }
}
