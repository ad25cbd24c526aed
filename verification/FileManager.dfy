/** `FileManager` over one RAM file system mounted at the root: paths are canonicalised,
    resolved and handed to the driver. Other mounted drivers are only known by their keys;
    what happens under them leaves the RAM file system alone. */
module FileManager {
  import opened Wrappers
  import opened Paths
  import opened RamTree
  import opened RamDirectory
  import opened RamDriver

  /** Where a path's last component lives. */
  datatype Where = Here(dir: INode, name: Option<Name>) | Elsewhere | Lost(error: Error)

  datatype Reply<T> = Reply(result: Result<T>) | OtherDriver

  predicate IsKey(k: string, c: Path) { ProperPath(c) && k == Key(c) }

  function Parent(p: Path): Path { if p == [] then [] else p[..|p| - 1] }

  lemma ParentProper(p: Path)
    requires ProperPath(p)
    ensures ProperPath(Parent(p)) && (p != [] ==> Parent(p) + [p[|p| - 1]] == p)
  {
  }

  lemma OnlyRootKey(c: Path)
    requires ProperPath(c) && Key(c) == "/"
    ensures c == []
  {
    if c != [] { ClosedSlashed(c); NoLeadingSlash(c); }
  }

  /** No mount point but the root's covers `p`. */
  ghost predicate Uncovered(mounts: seq<string>, p: Path) {
    forall c :: c != [] && IsKey(Key(c), c) && Key(c) in mounts ==> !(c <= p)
  }

  /** Some directory has the path. */
  ghost predicate DirectoryAt(nodes: Nodes, paths: map<INode, Path>, p: Path) {
    exists d :: IsDir(nodes, d) && d in paths && paths[d] == p
  }

  /** The directory above the path is served by the RAM file system and takes the new name. */
  ghost predicate MayCreate(mounts: seq<string>, nodes: Nodes, inodes: set<INode>, p: Path) {
    && p != [] && Uncovered(mounts, Parent(p))
    && var w := Walk(nodes, ROOT, Parent(p));
       w.Ok? && MayAdd(nodes, inodes, w.value, p[|p| - 1])
  }

  ghost predicate MayRemove(mounts: seq<string>, nodes: Nodes, p: Path) {
    && p != [] && Uncovered(mounts, Parent(p))
    && var w := Walk(nodes, ROOT, Parent(p));
       w.Ok? && MayUnlink(nodes, w.value, p[|p| - 1])
  }

  /** Source and destination of a rename: into a directory the source keeps its name. */
  ghost predicate Ends(nodes: Nodes, paths: map<INode, Path>, s: Path, n: Path, d1: INode, n1: Name, d2: INode,
                       n2: Name) {
    && d1 in paths && d2 in paths && paths[d1] + [n1] == s
    && (if DirectoryAt(nodes, paths, n) then paths[d2] == n && n2 == n1 else paths[d2] + [n2] == n)
  }

  /** When a rename that is not into itself succeeds. */
  ghost predicate CanRename(mounts: seq<string>, nodes: Nodes, paths: map<INode, Path>, s: Path, n: Path) {
    && s != [] && Uncovered(mounts, Parent(s)) && Uncovered(mounts, Parent(n))
    && exists d1, n1, d2, n2 :: Ends(nodes, paths, s, n, d1, n1, d2, n2) && MayRename(nodes, d1, n1, d2, n2, true)
  }

  /** On success exactly one inode is new, at the path, with the given content; otherwise
      nothing changed. */
  ghost predicate Created(p: Path, c: Content, r: Reply<INode>, before: Nodes, was: map<INode, Path>, next: nat,
                          after: Nodes, now: map<INode, Path>, next': nat) {
    if r.Reply? && r.result.Ok? then
      var i := r.result.value;
      && p != [] && now == was[i := p] && next < i == next' && i !in before && i in after && after[i] == c
      && (forall j :: j in before && before[j].File? ==> j in after && after[j] == before[j])
    else after == before && now == was && next' == next
  }

  /** On success exactly the path of a leaf is gone; otherwise nothing changed. */
  ghost predicate Removed(p: Path, r: Reply<()>, before: Nodes, was: map<INode, Path>,
                          after: Nodes, now: map<INode, Path>) {
    && (if r.Reply? && r.result.Ok? then
          exists x :: x in was && was[x] == p && now == was - {x} && x in before && Leaf(before[x])
        else after == before && now == was)
    && (forall i :: i in after && after[i].File? ==> i in before && after[i] == before[i])
  }

  /** Every path through `s` now goes through its destination, which is `n`, or `n` with
      the name of `s` if `n` was a directory; all other paths stay, except that of what
      was replaced; no file's content changed. */
  ghost predicate Renamed(s: Path, n: Path, before: Nodes, was: map<INode, Path>, after: Nodes, now: map<INode, Path>) {
    exists d1, n1, d2, n2 ::
      Ends(before, was, s, n, d1, n1, d2, n2) && RenameEffect(before, was, d1, n1, d2, n2, after, now)
  }

  /** Renaming to itself does nothing, below itself is refused, and otherwise it succeeds exactly
      when it can. */
  ghost predicate RenamedOrNot(mounts: seq<string>, s: Path, n: Path, r: Reply<()>,
                               before: Nodes, was: map<INode, Path>, after: Nodes, now: map<INode, Path>) {
    if s == n then r == Reply(Ok(())) && after == before && now == was
    else if s != [] && s <= n then r == Reply(Err(InvalidInput)) && after == before && now == was
    else
      && (r.Reply? && r.result.Ok? <==> CanRename(mounts, before, was, s, n))
      && (!(r.Reply? && r.result.Ok?) ==> NotRenamed(mounts, before, was, s, n, r))
      && (if r.Reply? && r.result.Ok? then Renamed(s, n, before, was, after, now) else after == before && now == was)
  }

  /** Opening succeeds exactly on a path that names a file, is refused as a directory exactly on
      one that names a directory, and otherwise for the reason there is nothing at the path. */
  ghost predicate Opened(mounts: seq<string>, p: Path, r: Reply<INode>, nodes: Nodes, paths: map<INode, Path>) {
    && (r == OtherDriver <==> !Uncovered(mounts, p))
    && (r.Reply? && r.result.Ok? ==>
          r.result.value in paths && paths[r.result.value] == p && r.result.value in nodes
            && nodes[r.result.value].File?)
    && (r.Reply? && r.result.Ok? <==>
          Uncovered(mounts, p) && exists i :: i in paths && paths[i] == p && i in nodes && nodes[i].File?)
    && (r == Reply(Err(IsADirectory)) <==> Uncovered(mounts, p) && DirectoryAt(nodes, paths, p))
    && (Uncovered(mounts, p) && !Present(paths, p) ==> r == Reply(Err(Missing(nodes, paths, p))))
  }

  function Made(r: Reply<INode>): set<INode> { if r.Reply? && r.result.Ok? then {r.result.value} else {} }

  /** What is at the path, if nobody holds it open. */
  function Unheld(paths: map<INode, Path>, open: multiset<INode>, p: Path): set<INode> {
    set i | i in paths && paths[i] == p && i !in open
  }

  // ---- refusals ----

  ghost predicate Present(paths: map<INode, Path>, q: Path) { exists i :: i in paths && paths[i] == q }

  /** The path is that of a file, or goes through one. */
  ghost predicate FileOn(nodes: Nodes, paths: map<INode, Path>, q: Path) {
    exists i :: i in paths && i in nodes && nodes[i].File? && paths[i] <= q
  }

  ghost predicate NonEmptyAt(nodes: Nodes, paths: map<INode, Path>, q: Path) {
    exists i :: i in paths && paths[i] == q && i in nodes && !Leaf(nodes[i])
  }

  /** Why there is nothing at a path. */
  ghost function Missing(nodes: Nodes, paths: map<INode, Path>, q: Path): Error {
    if FileOn(nodes, paths, q) then NotADirectory else NotFound
  }

  /** The answer to a `mkdir` or `creat` that fails. */
  ghost predicate NotCreated(mounts: seq<string>, nodes: Nodes, inodes: set<INode>, paths: map<INode, Path>, p: Path,
                             r: Reply<INode>) {
    if !Uncovered(mounts, Parent(p)) then r == OtherDriver
    else if p == [] then r == Reply(Err(NotFound))
    else if FileOn(nodes, paths, Parent(p)) then r == Reply(Err(NotADirectory))
    else if !Present(paths, Parent(p)) then r == Reply(Err(NotFound))
    else if Present(paths, p) then r == Reply(Err(AlreadyExists))
    else r == Reply(Err(FilesystemQuotaExceeded)) && |inodes| >= INODE_MAX
  }

  /** The answer to an `unlink` that fails. */
  ghost predicate NotRemoved(mounts: seq<string>, nodes: Nodes, paths: map<INode, Path>, p: Path, r: Reply<()>) {
    if !Uncovered(mounts, Parent(p)) then r == OtherDriver
    else if p == [] then r == Reply(Err(NotFound))
    else if FileOn(nodes, paths, Parent(p)) then r == Reply(Err(NotADirectory))
    else if !Present(paths, p) then r == Reply(Err(NotFound))
    else r == Reply(Err(DirectoryNotEmpty)) && NonEmptyAt(nodes, paths, p)
  }

  /** Where a rename puts what is at `s`: into `n` if that is a directory. */
  ghost function Target(nodes: Nodes, paths: map<INode, Path>, s: Path, n: Path): Path {
    if DirectoryAt(nodes, paths, n) && s != [] then n + [s[|s| - 1]] else n
  }

  /** The answer to a `rename` that fails, though it is not into itself: the directory of the
      source, the directory of the destination, the source, the target, in this order. */
  ghost predicate NotRenamed(mounts: seq<string>, nodes: Nodes, paths: map<INode, Path>, s: Path, n: Path,
                             r: Reply<()>) {
    if !Uncovered(mounts, Parent(s)) then r == OtherDriver
    else if !Present(paths, Parent(s)) then r == Reply(Err(Missing(nodes, paths, Parent(s))))
    else if s == [] then r == Reply(Err(NotFound))
    else if !Uncovered(mounts, Parent(n)) then r == OtherDriver
    else if !Present(paths, Parent(n)) then r == Reply(Err(Missing(nodes, paths, Parent(n))))
    else if !Present(paths, s) then r == Reply(Err(Missing(nodes, paths, s)))
    else if FileOn(nodes, paths, Parent(n)) then r == Reply(Err(NotADirectory))
    else r == Reply(Err(DirectoryNotEmpty)) && NonEmptyAt(nodes, paths, Target(nodes, paths, s, n))
  }

  lemma {:induction false} WalkAppend(nodes: Nodes, d: INode, p: Path, q: Path)
    ensures Walk(nodes, d, p + q) == match Walk(nodes, d, p) case Ok(i) => Walk(nodes, i, q) case Err(e) => Err(e)
    decreases |p|
  {
    if p == [] {
      assert p + q == q;
    } else {
      assert (p + q)[0] == p[0] && (p + q)[1..] == p[1..] + q;
      var l := Lookup(nodes, d, p[0]);
      if l.Ok? { WalkAppend(nodes, l.value, p[1..], q); }
    }
  }

  /** A walk that meets a file has come to it by a shorter path. */
  lemma {:induction false} WalkBlocked(nodes: Nodes, d: INode, p: Path) returns (k: nat)
    requires Walk(nodes, d, p) == Err(NotADirectory)
    ensures k < |p| && Walk(nodes, d, p[..k]).Ok?
    ensures var i := Walk(nodes, d, p[..k]).value; i in nodes && nodes[i].File?
    decreases |p|
  {
    var l := Lookup(nodes, d, p[0]);
    if IsDir(nodes, d) { FindMeans(nodes[d].entries, p[0]); }
    if l.Ok? {
      var j := WalkBlocked(nodes, l.value, p[1..]);
      k := j + 1;
      assert p[..k][0] == p[0] && p[..k][1..] == p[1..][..j];
    } else {
      k := 0;
    }
  }

  /** From the root a walk arrives exactly at what has the path. */
  lemma WalkArrives(nodes: Nodes, paths: map<INode, Path>, p: Path)
    requires Tree(nodes, paths)
    ensures forall i :: Walk(nodes, ROOT, p) == Ok(i) <==> i in paths && paths[i] == p
  {
    assert paths[ROOT] == [] && [] + p == p;
    hide Tree, Walk;
    forall i ensures Walk(nodes, ROOT, p) == Ok(i) <==> i in paths && paths[i] == p {
      WalkExact(nodes, paths, ROOT, p, i);
    }
  }

  lemma WalkStops(nodes: Nodes, paths: map<INode, Path>, p: Path)
    requires Tree(nodes, paths) && paths.Keys <= nodes.Keys
    ensures match Walk(nodes, ROOT, p)
      case Ok(_) => true
      case Err(e) => !Present(paths, p) && e == Missing(nodes, paths, p)
  {
    hide Tree, Walk;
    WalkArrives(nodes, paths, p);
    if Walk(nodes, ROOT, p).Err? {
      WalkError(nodes, ROOT, p);
      if Walk(nodes, ROOT, p).error == NotADirectory {
        var k := WalkBlocked(nodes, ROOT, p);
        WalkArrives(nodes, paths, p[..k]);
      }
      forall f | f in paths && f in nodes && nodes[f].File? && paths[f] <= p
        ensures Walk(nodes, ROOT, p) == Err(NotADirectory)
      {
        StopsAtFile(nodes, paths, f, p);
      }
    }
  }

  lemma StopsAtFile(nodes: Nodes, paths: map<INode, Path>, f: INode, p: Path)
    requires Tree(nodes, paths) && f in paths && f in nodes && nodes[f].File? && paths[f] <= p
    requires Walk(nodes, ROOT, p).Err?
    ensures Walk(nodes, ROOT, p) == Err(NotADirectory)
  {
    hide Tree, Walk;
    WalkArrives(nodes, paths, paths[f]);
    var q := p[|paths[f]|..];
    assert p == paths[f] + q;
    WalkAppend(nodes, ROOT, paths[f], q);
    FromFile(nodes, f, q);
  }

  lemma FromFile(nodes: Nodes, f: INode, q: Path)
    requires f in nodes && nodes[f].File?
    ensures Walk(nodes, f, q) == if q == [] then Ok(f) else Err(NotADirectory)
  {
  }

  /** What a directory has under a name is what has the path. */
  lemma EntryPresent(nodes: Nodes, paths: map<INode, Path>, p: Path, d: INode)
    requires Tree(nodes, paths) && paths.Keys <= nodes.Keys && p != [] && IsDir(nodes, d)
    requires d in paths && paths[d] == Parent(p)
    ensures var l := Lookup(nodes, d, p[|p| - 1]);
      && (l.Ok? <==> Present(paths, p))
      && (l.Ok? ==> l.value in nodes && (NonEmptyAt(nodes, paths, p) <==> !Leaf(nodes[l.value])))
      && forall i :: i in paths && paths[i] == p ==> l == Ok(i)
  {
    hide Tree, Lookup, Holds, Leaf;
    var name := p[|p| - 1];
    assert Parent(p) + [name] == p;
    FindExact(nodes, paths, d, name);
    var l := Lookup(nodes, d, name);
    if l.Ok? { PlacedAt(nodes, paths, d, name, l.value); }
    forall i | i in paths && paths[i] == p ensures l == Result<INode>.Ok(i) { EntryAt(nodes, paths, i, d, name); }
  }

  lemma SourceMissing(nodes: Nodes, paths: map<INode, Path>, s: Path, d: INode)
    requires Tree(nodes, paths) && s != [] && d in nodes && d in paths && paths[d] == Parent(s)
    ensures !IsDir(nodes, d) ==> !Present(paths, s)
    ensures !Present(paths, s) ==> (FileOn(nodes, paths, s) <==> FileOn(nodes, paths, Parent(s)))
  {
    hide Tree;
    assert Parent(s) + [s[|s| - 1]] == s;
    forall i | i in paths && paths[i] == s ensures IsDir(nodes, d) { EntryAt(nodes, paths, i, d, s[|s| - 1]); }
    forall i | i in paths && paths[i] != s ensures paths[i] <= s <==> paths[i] <= Parent(s) {
      ShorterPrefix(paths[i], s);
    }
  }

  lemma ShorterPrefix(q: Path, s: Path)
    requires s != [] && q != s
    ensures q <= s <==> q <= Parent(s)
  {
  }

  lemma NoneCreated(p: Path, c: Content, nodes: Nodes, paths: map<INode, Path>, next: nat)
    ensures forall r: Reply<INode> :: !(r.Reply? && r.result.Ok?) ==>
      Created(p, c, r, nodes, paths, next, nodes, paths, next)
  {
  }

  /** Adding an entry to the directory above a path creates what has the path. */
  lemma AddCreates(p: Path, c: Content, d: INode, nodes: Nodes, paths: map<INode, Path>, next: nat)
    requires p != [] && d in paths && paths[d] == Parent(p) && next + 1 !in nodes
    ensures IsDir(nodes, d) ==>
      Created(p, c, Reply(Ok(next + 1)), nodes, paths, next, Added(nodes, d, p[|p| - 1], next + 1, c),
              paths[next + 1 := paths[d] + [p[|p| - 1]]], next + 1)
  {
    hide Added;
    assert Parent(p) + [p[|p| - 1]] == p;
    if IsDir(nodes, d) { AddRest(nodes, d, p[|p| - 1], next + 1, c); }
  }

  class FileManager {
    const fs: RamFs
    /** The keys of the mount map, in their order. */
    var mounts: seq<string>

    ghost predicate Valid()
      reads this, fs
    {
      && fs.Valid() && Ordered(mounts) && "/" in mounts
      && (forall k :: k in mounts ==> exists c :: IsKey(k, c))
    }

    constructor ()
      ensures Valid() && fresh(fs) && mounts == ["/"] && fs.nextInode == ROOT && fs.paths == map[ROOT := []]
      ensures fs.nodes == map[ROOT := Dir([])] && fs.open == multiset{}
    {
      fs := new RamFs();
      mounts := ["/"];
      new;
      assert IsKey("/", []);
    }

    /** Another driver at a mount point below the root. */
    method Mount(c: Path)
      requires Valid() && ProperPath(c) && c != []
      modifies this`mounts
      ensures Valid() && forall k :: k in mounts <==> k in old(mounts) || k == Key(c)
    {
      assert IsKey(Key(c), c);
      mounts := Insert(mounts, Key(c));
    }

    /** The longest mount key decides; the root's own key leaves the whole path. */
    method FindDriver(p: Path) returns (onRam: bool, rest: Path)
      requires Valid() && ProperPath(p)
      ensures onRam <==> Uncovered(mounts, p)
      ensures onRam ==> rest == p
    {
      var s := Closed(p);
      var found, key := FindMount(mounts, s);
      KeyMatches([], p);
      assert found && key in mounts;
      ghost var c :| IsKey(key, c);
      onRam := key == "/";
      KeyMatches(c, p);
      if onRam {
        OnlyRootKey(c);
        forall d | d != [] && IsKey(Key(d), d) && Key(d) in mounts ensures !(d <= p) {
          KeyMatches(d, p);
          if |Key(d)| <= 1 { ClosedSlashed(d); }
        }
        ResolvedBelowMount([], p);
        rest := CanonicalPathComponents("/", s[|key| - 1..]);
      } else {
        rest := [];
      }
    }

    /** The lookup loop. */
    method Descend(p: Path) returns (r: Result<INode>)
      ensures r == Walk(fs.nodes, ROOT, p)
    {
      var dir := ROOT;
      for k := 0 to |p|
        invariant Walk(fs.nodes, ROOT, p) == Walk(fs.nodes, dir, p[k..])
      {
        assert p[k..][0] == p[k] && p[k..][1..] == p[k + 1..];
        var l := Lookup(fs.nodes, dir, p[k]);
        if l.Err? { return l; }
        dir := l.value;
      }
      return Ok(dir);
    }

    method ResolveParent(cwd: string, path: string) returns (w: Where)
      requires Valid()
      ensures Places(w, Canon(cwd, path))
      ensures w.Here? ==> At(w, Canon(cwd, path))
    {
      var p := CanonicalPathComponents(cwd, path);
      ParentProper(p);
      var onRam, rest := FindDriver(Parent(p));
      if !onRam { return Elsewhere; }
      var d := Descend(rest);
      match d {
        case Ok(dir) =>
          ResolvedPath(Parent(p), dir);
          return Here(dir, if p == [] then None else Some(p[|p| - 1]));
        case Err(e) => return Lost(e);
      }
    }

    /** Where the directory above the path is: by the mount that covers it and the walk to it. */
    ghost predicate Places(w: Where, p: Path)
      reads this, fs
    {
      if !Uncovered(mounts, Parent(p)) then w == Elsewhere
      else match Walk(fs.nodes, ROOT, Parent(p))
           case Ok(d) => w == Here(d, if p == [] then None else Some(p[|p| - 1]))
           case Err(e) => w == Lost(e)
    }

    /** A resolved place is the directory above the path, and the path's last name. */
    ghost predicate At(w: Where, p: Path)
      reads fs
    {
      && w.Here? && w.dir in fs.paths
      && (match w.name case None => p == [] && fs.paths[w.dir] == [] case Some(n) => fs.paths[w.dir] + [n] == p)
    }

    /** A resolved directory has the path that led to it. */
    lemma ResolvedPath(p: Path, d: INode)
      requires Valid() && Walk(fs.nodes, ROOT, p) == Ok(d)
      ensures d in fs.paths && fs.paths[d] == p
    {
      SoundFacts(fs.nodes, fs.inodes, fs.nextInode, fs.open, fs.paths);
      assert IsDir(fs.nodes, ROOT) && fs.paths[ROOT] == [];
      WalkExact(fs.nodes, fs.paths, ROOT, p, d);
      assert [] + p == p;
    }

    /** A walk fails for the reason there is nothing at the path. */
    lemma WalkFails(p: Path)
      requires Valid()
      ensures match Walk(fs.nodes, ROOT, p)
        case Ok(d) => d in fs.paths && fs.paths[d] == p
        case Err(e) => !Present(fs.paths, p) && e == Missing(fs.nodes, fs.paths, p)
    {
      InTree();
      SoundFacts(fs.nodes, fs.inodes, fs.nextInode, fs.open, fs.paths);
      hide Valid, Walk, Missing, Present;
      WalkArrives(fs.nodes, fs.paths, p);
      WalkStops(fs.nodes, fs.paths, p);
    }

    /** Without a parent there is nothing at the path either. */
    lemma NowhereAbove(p: Path)
      requires Valid() && Walk(fs.nodes, ROOT, Parent(p)).Err?
      ensures !Present(fs.paths, Parent(p)) && !Present(fs.paths, p) && p != []
      ensures Walk(fs.nodes, ROOT, Parent(p)).error == Missing(fs.nodes, fs.paths, Parent(p))
    {
      WalkFails(Parent(p));
      if i :| i in fs.paths && fs.paths[i] == p {
        SoundFacts(fs.nodes, fs.inodes, fs.nextInode, fs.open, fs.paths);
        var a := Ancestor(fs.nodes, fs.paths, i, |Parent(p)|);
      }
      hide Sound;
    }

    /** What the walk to the parent and the look into it say about the path. */
    lemma Whereabouts(p: Path, d: INode)
      requires Valid() && Walk(fs.nodes, ROOT, Parent(p)) == Ok(d)
      ensures d in fs.nodes && d in fs.paths && fs.paths[d] == Parent(p) && Present(fs.paths, Parent(p))
      ensures FileOn(fs.nodes, fs.paths, Parent(p)) <==> fs.nodes[d].File?
      ensures p != [] && IsDir(fs.nodes, d) ==>
        var l := Lookup(fs.nodes, d, p[|p| - 1]);
        && (l.Ok? <==> Present(fs.paths, p)) && !FileOn(fs.nodes, fs.paths, Parent(p))
        && (l.Ok? ==> l.value in fs.nodes && (NonEmptyAt(fs.nodes, fs.paths, p) <==> !Leaf(fs.nodes[l.value])))
    {
      ResolvedPath(Parent(p), d);
      InTree();
      SoundFacts(fs.nodes, fs.inodes, fs.nextInode, fs.open, fs.paths);
      hide Sound;
      if FileOn(fs.nodes, fs.paths, Parent(p)) {
        var f :| f in fs.paths && f in fs.nodes && fs.nodes[f].File? && fs.paths[f] <= Parent(p);
        var a := Ancestor(fs.nodes, fs.paths, d, |fs.paths[f]|);
        SamePath(fs.nodes, fs.paths, a, f);
      }
      if p != [] && IsDir(fs.nodes, d) { EntryOf(p, d); }
    }

    lemma EntryOf(p: Path, d: INode)
      requires Valid() && p != [] && IsDir(fs.nodes, d) && d in fs.paths && fs.paths[d] == Parent(p)
      ensures var l := Lookup(fs.nodes, d, p[|p| - 1]);
        && (l.Ok? <==> Present(fs.paths, p))
        && (l.Ok? ==> l.value in fs.nodes && (NonEmptyAt(fs.nodes, fs.paths, p) <==> !Leaf(fs.nodes[l.value])))
        && forall i :: i in fs.paths && fs.paths[i] == p ==> l == Ok(i)
    {
      InTree();
      SoundFacts(fs.nodes, fs.inodes, fs.nextInode, fs.open, fs.paths);
      hide Valid, Tree, Lookup;
      EntryPresent(fs.nodes, fs.paths, p, d);
    }

    /** What a refusal of the driver says about the path. */
    lemma AddRefused(p: Path, d: INode)
      requires Valid() && p != [] && Uncovered(mounts, Parent(p)) && Walk(fs.nodes, ROOT, Parent(p)) == Ok(d)
      ensures d in fs.nodes
      ensures !MayAdd(fs.nodes, fs.inodes, d, p[|p| - 1]) ==>
        forall r :: AddAnswer(fs.nodes, fs.inodes, d, p[|p| - 1], r) ==>
          NotCreated(mounts, fs.nodes, fs.inodes, fs.paths, p, Reply(r))
    {
      hide Valid, Uncovered, Walk, FileOn, Present, NonEmptyAt;
      Whereabouts(p, d);
    }

    /** What a path without a place for a new entry is answered. */
    lemma NoPlaceForNew(p: Path, w: Where)
      requires Valid() && Places(w, p)
      ensures w.Elsewhere? ==> NotCreated(mounts, fs.nodes, fs.inodes, fs.paths, p, OtherDriver)
      ensures w.Lost? ==> NotCreated(mounts, fs.nodes, fs.inodes, fs.paths, p, Reply(Err(w.error)))
      ensures w.Here? && w.name.None? ==> NotCreated(mounts, fs.nodes, fs.inodes, fs.paths, p, Reply(Err(NotFound)))
    {
      hide Valid, Uncovered, Walk, FileOn, Present;
      if w.Lost? { NowhereAbove(p); }
    }

    method Mkdir(cwd: string, path: string) returns (r: Reply<INode>)
      requires Valid()
      modifies fs
      ensures Valid() && fs.open == old(fs.open)
      ensures Created(Canon(cwd, path), Dir([]), r, old(fs.nodes), old(fs.paths), old(fs.nextInode),
                      fs.nodes, fs.paths, fs.nextInode)
      ensures r.Reply? && r.result.Ok? <==> MayCreate(mounts, old(fs.nodes), old(fs.inodes), Canon(cwd, path))
      ensures !(r.Reply? && r.result.Ok?) ==>
        NotCreated(mounts, old(fs.nodes), old(fs.inodes), old(fs.paths), Canon(cwd, path), r)
      ensures fs.inodes == old(fs.inodes) + Made(r)
    {
      hide Sound, Tree, Find, Walk, Canon, Uncovered, Added, Holds, FileOn, Present, NotCreated, AddAnswer, Created;
      var w := ResolveParent(cwd, path);
      NoPlaceForNew(Canon(cwd, path), w);
      NoneCreated(Canon(cwd, path), Dir([]), fs.nodes, fs.paths, fs.nextInode);
      match w {
        case Elsewhere => return OtherDriver;
        case Lost(e) => return Reply(Err(e));
        case Here(dir, None) => return Reply(Err(NotFound));
        case Here(dir, Some(name)) =>
          AddRefused(Canon(cwd, path), dir);
          SoundFacts(fs.nodes, fs.inodes, fs.nextInode, fs.open, fs.paths);
          AddCreates(Canon(cwd, path), Dir([]), dir, fs.nodes, fs.paths, fs.nextInode);
          var i := fs.MakeNode(dir, name, true);
          return Reply(i);
      }
    }

    method Creat(cwd: string, path: string) returns (r: Reply<INode>)
      requires Valid()
      modifies fs
      ensures Valid()
      ensures Created(Canon(cwd, path), File([]), r, old(fs.nodes), old(fs.paths), old(fs.nextInode),
                      fs.nodes, fs.paths, fs.nextInode)
      ensures fs.open == old(fs.open) + if r.Reply? && r.result.Ok? then multiset{r.result.value} else multiset{}
      ensures r.Reply? && r.result.Ok? <==> MayCreate(mounts, old(fs.nodes), old(fs.inodes), Canon(cwd, path))
      ensures !(r.Reply? && r.result.Ok?) ==>
        NotCreated(mounts, old(fs.nodes), old(fs.inodes), old(fs.paths), Canon(cwd, path), r)
      ensures fs.inodes == old(fs.inodes) + Made(r)
    {
      hide Sound, Tree, Find, Walk, Canon, Uncovered, Added, Holds, FileOn, Present, NotCreated, AddAnswer, Created;
      var w := ResolveParent(cwd, path);
      NoPlaceForNew(Canon(cwd, path), w);
      NoneCreated(Canon(cwd, path), File([]), fs.nodes, fs.paths, fs.nextInode);
      match w {
        case Elsewhere => return OtherDriver;
        case Lost(e) => return Reply(Err(e));
        case Here(dir, None) => return Reply(Err(NotFound));
        case Here(dir, Some(name)) =>
          AddRefused(Canon(cwd, path), dir);
          SoundFacts(fs.nodes, fs.inodes, fs.nextInode, fs.open, fs.paths);
          AddCreates(Canon(cwd, path), File([]), dir, fs.nodes, fs.paths, fs.nextInode);
          var i := fs.Creat(dir, name);
          return Reply(i);
      }
    }

    /** Opens the file at the path; directories are refused. */
    method Open(cwd: string, path: string) returns (r: Reply<INode>)
      requires Valid()
      modifies fs
      ensures Valid() && fs.nodes == old(fs.nodes) && fs.paths == old(fs.paths) && fs.nextInode == old(fs.nextInode)
      ensures fs.open == old(fs.open) + if r.Reply? && r.result.Ok? then multiset{r.result.value} else multiset{}
      ensures Opened(mounts, Canon(cwd, path), r, fs.nodes, fs.paths) && fs.inodes == old(fs.inodes)
    {
      hide Sound, Tree, Walk, Canon, Uncovered, FileOn;
      var p := CanonicalPathComponents(cwd, path);
      var onRam, rest := FindDriver(p);
      if !onRam { return OtherDriver; }
      var d := Descend(rest);
      InTree();
      if d.Err? {
        NothingAt(p, d);
        WalkFails(p);
        return Reply(d);
      }
      ResolvedPath(p, d.value);
      OnlyOneAt(p, d.value);
      SoundFacts(fs.nodes, fs.inodes, fs.nextInode, fs.open, fs.paths);
      if fs.nodes[d.value].Dir? { return Reply(Err(IsADirectory)); }
      var o := fs.Open(d.value);
      return Reply(o);
    }

    lemma InTree()
      requires Valid()
      ensures fs.paths.Keys <= fs.nodes.Keys
    {
    }

    /** A path that the walk does not find is nobody's, and the error is not about its kind. */
    lemma NothingAt(p: Path, r: Result<INode>)
      requires Valid() && r == Walk(fs.nodes, ROOT, p) && r.Err?
      ensures r.error != IsADirectory && forall i :: i in fs.paths ==> fs.paths[i] != p
    {
      WalkError(fs.nodes, ROOT, p);
      forall i | i in fs.paths ensures fs.paths[i] != p { Reached(i); }
      hide Sound, Walk;
    }

    lemma OnlyOneAt(p: Path, d: INode)
      requires Valid() && d in fs.paths && fs.paths[d] == p
      ensures forall i :: i in fs.paths && fs.paths[i] == p ==> i == d
    {
      SoundFacts(fs.nodes, fs.inodes, fs.nextInode, fs.open, fs.paths);
      forall i | i in fs.paths && fs.paths[i] == p ensures i == d { SamePath(fs.nodes, fs.paths, i, d); }
      hide Sound, Tree;
    }

    method Unlink(cwd: string, path: string) returns (r: Reply<()>)
      requires Valid()
      modifies fs
      ensures Valid() && fs.nextInode == old(fs.nextInode) && fs.open == old(fs.open)
      ensures Removed(Canon(cwd, path), r, old(fs.nodes), old(fs.paths), fs.nodes, fs.paths)
      ensures r.Reply? && r.result.Ok? <==> MayRemove(mounts, old(fs.nodes), Canon(cwd, path))
      ensures !(r.Reply? && r.result.Ok?) ==>
        NotRemoved(mounts, old(fs.nodes), old(fs.paths), Canon(cwd, path), r)
      ensures fs.inodes == if r.Reply? && r.result.Ok?
        then old(fs.inodes) - Unheld(old(fs.paths), old(fs.open), Canon(cwd, path)) else old(fs.inodes)
    {
      hide Sound, Tree, Find, Walk, Canon, Uncovered, Added, Holds, FileOn, Present, NonEmptyAt;
      var w := ResolveParent(cwd, path);
      match w {
        case Elsewhere => return OtherDriver;
        case Lost(e) =>
          NowhereAbove(Canon(cwd, path));
          return Reply(Err(e));
        case Here(dir, None) => return Reply(Err(NotFound));
        case Here(dir, Some(name)) =>
          Whereabouts(Canon(cwd, path), dir);
          if IsDir(fs.nodes, dir) { EntryOf(Canon(cwd, path), dir); }
          var u := fs.Unlink(dir, name);
          if u.Ok? {
            assert Unheld(old(fs.paths), old(fs.open), Canon(cwd, path)) <= {Found(old(fs.nodes), dir, name)};
          }
          return Reply(u);
      }
    }

    /** Renaming by path. The only guard against moving a directory below itself is a string
        comparison of the closed canonical paths. */
    method Rename(cwd: string, from: string, to: string) returns (r: Reply<()>)
      requires Valid()
      modifies fs
      ensures Valid() && fs.nextInode == old(fs.nextInode) && fs.open == old(fs.open) && fs.inodes == old(fs.inodes)
      ensures RenamedOrNot(mounts, Canon(cwd, from), Canon(cwd, to), r,
                           old(fs.nodes), old(fs.paths), fs.nodes, fs.paths)
    {
      hide Sound, Canon, Closed;
      var s := CanonicalPathComponents(cwd, from);
      var n := CanonicalPathComponents(cwd, to);
      var oldPath, newPath := Closed(s), Closed(n);
      ClosedPrefix(s, n);
      if oldPath == newPath { return Reply(Ok(())); }
      if StartsWith(newPath, oldPath) { return Reply(Err(InvalidInput)); }
      CanonJoin(cwd, s);
      CanonJoin(cwd, n);
      r := Move(cwd, oldPath, newPath, s, n);
    }

    method Move(cwd: string, oldPath: string, newPath: string, ghost s: Path, ghost n: Path) returns (r: Reply<()>)
      requires Valid() && Canon(cwd, oldPath) == s && Canon(cwd, newPath) == n && (s != [] ==> !(s <= n))
      modifies fs
      ensures Valid() && fs.nextInode == old(fs.nextInode) && fs.open == old(fs.open) && fs.inodes == old(fs.inodes)
      ensures if r.Reply? && r.result.Ok? then Renamed(s, n, old(fs.nodes), old(fs.paths), fs.nodes, fs.paths)
              else fs.nodes == old(fs.nodes) && fs.paths == old(fs.paths)
      ensures r.Reply? && r.result.Ok? <==> CanRename(mounts, old(fs.nodes), old(fs.paths), s, n)
      ensures !(r.Reply? && r.result.Ok?) ==> NotRenamed(mounts, old(fs.nodes), old(fs.paths), s, n, r)
    {
      hide MayRename, CanRename, Sound, Tree, Find, Walk, Canon, Uncovered, Holds, Lookup, RenameEffect, DirectoryAt;
      hide Present, FileOn, NonEmptyAt, Missing, Target, MayUnlink;
      var o := ResolveParent(cwd, oldPath);
      Unresolved(s, n, o);
      if o.Elsewhere? { return OtherDriver; }
      if o.Lost? {
        NowhereAbove(s);
        return Reply(Err(o.error));
      }
      Whereabouts(s, o.dir);
      if o.name.None? { return Reply(Err(NotFound)); }
      var oldName := o.name.value;
      var t := ResolveParent(cwd, newPath);
      UnresolvedTarget(s, n, t);
      if t.Elsewhere? { return OtherDriver; }
      if t.Lost? {
        NowhereAbove(n);
        return Reply(Err(t.error));
      }
      var newDir, newName := Destination(t, oldName, n);
      RenameFinds(s, n, o.dir, oldName, t.dir, newDir, newName);
      PrefixOfParent(s, fs.paths[newDir], n, newName);
      Resolved(s, n, o.dir, oldName, newDir, newName);
      var u := fs.Rename(o.dir, oldName, newDir, newName, true);
      return Reply(u);
    }

    /** What the driver finds at the two ends of a rename, said of the paths. */
    lemma RenameFinds(s: Path, n: Path, d1: INode, n1: Name, d: INode, d2: INode, n2: Name)
      requires Valid() && s != [] && Walk(fs.nodes, ROOT, Parent(s)) == Ok(d1) && n1 == s[|s| - 1]
      requires Walk(fs.nodes, ROOT, Parent(n)) == Ok(d) && d2 in fs.paths
      requires if DirectoryAt(fs.nodes, fs.paths, n) then fs.paths[d2] == n && n2 == n1
               else n != [] && d2 == d && n2 == n[|n| - 1]
      ensures Present(fs.paths, Parent(s)) && Present(fs.paths, Parent(n)) && d1 in fs.nodes && d2 in fs.nodes
      ensures Lookup(fs.nodes, d1, n1).Ok? <==> Present(fs.paths, s)
      ensures !Present(fs.paths, s) ==>
        Missing(fs.nodes, fs.paths, s) == if IsDir(fs.nodes, d1) then NotFound else NotADirectory
      ensures FileOn(fs.nodes, fs.paths, Parent(n)) <==> !IsDir(fs.nodes, d2)
      ensures IsDir(fs.nodes, d2) && Lookup(fs.nodes, d2, n2).Ok? && !MayUnlink(fs.nodes, d2, n2) ==>
        NonEmptyAt(fs.nodes, fs.paths, Target(fs.nodes, fs.paths, s, n))
      ensures MayRename(fs.nodes, d1, n1, d2, n2, true) || Lookup(fs.nodes, d1, n1).Err? || !IsDir(fs.nodes, d2)
        || (Lookup(fs.nodes, d2, n2).Ok? && !MayUnlink(fs.nodes, d2, n2))
    {
      hide Walk, Sound, Find, DirectoryAt, Leaf;
      Whereabouts(s, d1);
      Whereabouts(n, d);
      InTree();
      IntoDirectory(n, d, d2);
      SoundFacts(fs.nodes, fs.inodes, fs.nextInode, fs.open, fs.paths);
      SourceMissing(fs.nodes, fs.paths, s, d1);
      hide Tree, NonEmptyAt, FileOn, Present;
      if IsDir(fs.nodes, d2) {
        var q := Target(fs.nodes, fs.paths, s, n);
        assert Parent(q) == fs.paths[d2] && q[|q| - 1] == n2;
        EntryPresent(fs.nodes, fs.paths, q, d2);
      }
    }

    /** A directory has a directory above it, so that the last case of a rename is about a file. */
    lemma IntoDirectory(n: Path, d: INode, d2: INode)
      requires Valid() && d in fs.nodes && d in fs.paths && fs.paths[d] == Parent(n) && d2 in fs.paths
      requires if DirectoryAt(fs.nodes, fs.paths, n) then fs.paths[d2] == n else d2 == d
      ensures DirectoryAt(fs.nodes, fs.paths, n) ==> IsDir(fs.nodes, d) && IsDir(fs.nodes, d2)
    {
      SoundFacts(fs.nodes, fs.inodes, fs.nextInode, fs.open, fs.paths);
      hide Sound;
      if DirectoryAt(fs.nodes, fs.paths, n) {
        OnlyOneAt(n, d2);
        if n != [] { EntryAt(fs.nodes, fs.paths, d2, d, n[|n| - 1]); } else { SamePath(fs.nodes, fs.paths, d, d2); }
      }
    }

    /** Without a place for the source there is nothing to rename. */
    lemma Unresolved(s: Path, n: Path, w: Where)
      requires Valid() && Places(w, s)
      ensures CanRename(mounts, fs.nodes, fs.paths, s, n) ==> w.Here? && w.name.Some?
    {
      hide MayRename;
      if CanRename(mounts, fs.nodes, fs.paths, s, n) && Walk(fs.nodes, ROOT, Parent(s)).Err? {
        var d1, n1, d2, n2 :| Ends(fs.nodes, fs.paths, s, n, d1, n1, d2, n2)
          && MayRename(fs.nodes, d1, n1, d2, n2, true);
        assert Parent(s) == fs.paths[d1];
        Reached(d1);
      }
    }

    lemma UnresolvedTarget(s: Path, n: Path, w: Where)
      requires Valid() && Places(w, n)
      ensures CanRename(mounts, fs.nodes, fs.paths, s, n) ==> w.Here?
    {
      hide MayRename;
      if CanRename(mounts, fs.nodes, fs.paths, s, n) && Walk(fs.nodes, ROOT, Parent(n)).Err? {
        var d1, n1, d2, n2 :| Ends(fs.nodes, fs.paths, s, n, d1, n1, d2, n2)
          && MayRename(fs.nodes, d1, n1, d2, n2, true);
        SoundFacts(fs.nodes, fs.inodes, fs.nextInode, fs.open, fs.paths);
        var a := d2;
        if fs.paths[d2] == n { a := Ancestor(fs.nodes, fs.paths, d2, |Parent(n)|); }
        assert fs.paths[a] == Parent(n);
        Reached(a);
      }
    }

    /** Everything in the tree is found by its path. */
    lemma Reached(i: INode)
      requires Valid() && i in fs.paths
      ensures Walk(fs.nodes, ROOT, fs.paths[i]) == Ok(i)
    {
      SoundFacts(fs.nodes, fs.inodes, fs.nextInode, fs.open, fs.paths);
      TreeMeans(fs.nodes, fs.paths);
      hide Sound, Tree;
    }

    /** The two ends are determined by the paths. */
    lemma Resolved(s: Path, n: Path, d1: INode, n1: Name, d2: INode, n2: Name)
      requires Valid() && Ends(fs.nodes, fs.paths, s, n, d1, n1, d2, n2)
      requires Uncovered(mounts, Parent(s)) && Uncovered(mounts, Parent(n))
      ensures CanRename(mounts, fs.nodes, fs.paths, s, n) <==> MayRename(fs.nodes, d1, n1, d2, n2, true)
    {
      hide MayRename, Uncovered;
      if CanRename(mounts, fs.nodes, fs.paths, s, n) {
        var e1, m1, e2, m2 :| Ends(fs.nodes, fs.paths, s, n, e1, m1, e2, m2)
          && MayRename(fs.nodes, e1, m1, e2, m2, true);
        SoundFacts(fs.nodes, fs.inodes, fs.nextInode, fs.open, fs.paths);
        SameEnd(d1, n1, e1, m1, s);
        if DirectoryAt(fs.nodes, fs.paths, n) {
          SamePath(fs.nodes, fs.paths, d2, e2);
        } else {
          SameEnd(d2, n2, e2, m2, n);
        }
      }
    }

    lemma SameEnd(d: INode, m: Name, e: INode, o: Name, p: Path)
      requires Valid() && d in fs.paths && e in fs.paths && fs.paths[d] + [m] == p == fs.paths[e] + [o]
      ensures d == e && m == o
    {
      SoundFacts(fs.nodes, fs.inodes, fs.nextInode, fs.open, fs.paths);
      assert fs.paths[d] == p[..|p| - 1] == fs.paths[e] && m == p[|p| - 1] == o;
      SamePath(fs.nodes, fs.paths, d, e);
    }

    /** If the new path names a directory, the source goes into it under its own name. */
    method Destination(t: Where, oldName: Name, ghost n: Path) returns (newDir: INode, newName: Name)
      requires Valid() && At(t, n)
      ensures newDir in fs.paths
      ensures if DirectoryAt(fs.nodes, fs.paths, n) then fs.paths[newDir] == n && newName == oldName
              else n != [] && fs.paths[newDir] + [newName] == n && newDir == t.dir
    {
      SoundFacts(fs.nodes, fs.inodes, fs.nextInode, fs.open, fs.paths);
      hide Sound;
      newDir := t.dir;
      match t.name {
        case None => newName := oldName; RootIsDirectory();
        case Some(name) =>
          FindExact(fs.nodes, fs.paths, t.dir, name);
          var l := Lookup(fs.nodes, t.dir, name);
          NamedDirectory(t.dir, name, n);
          hide Tree, Lookup, Holds;
          newName := name;
          if l.Ok? && l.value in fs.nodes && fs.nodes[l.value].Dir? {
            newDir, newName := l.value, oldName;
          }
      }
    }

    lemma RootIsDirectory()
      requires Valid()
      ensures DirectoryAt(fs.nodes, fs.paths, []) && ROOT in fs.paths && fs.paths[ROOT] == []
      ensures forall d :: d in fs.paths && fs.paths[d] == [] ==> d == ROOT
    {
      assert IsDir(fs.nodes, ROOT);
    }

    lemma NamedDirectory(d: INode, name: Name, n: Path)
      requires Valid() && d in fs.paths && fs.paths[d] + [name] == n
      ensures var l := Lookup(fs.nodes, d, name);
        && (DirectoryAt(fs.nodes, fs.paths, n) <==> l.Ok? && IsDir(fs.nodes, l.value))
        && (l.Ok? ==> l.value in fs.paths && fs.paths[l.value] == n)
    {
      FindExact(fs.nodes, fs.paths, d, name);
      var l := Lookup(fs.nodes, d, name);
      if l.Ok? { PlacedAt(fs.nodes, fs.paths, d, name, l.value); }
      if DirectoryAt(fs.nodes, fs.paths, n) {
        var e :| IsDir(fs.nodes, e) && e in fs.paths && fs.paths[e] == n;
        EntryAt(fs.nodes, fs.paths, e, d, name);
      }
      hide Lookup, Tree;
    }
  }

  /** What is not above the new path is not above its directory either. */
  lemma PrefixOfParent(s: Path, d: Path, n: Path, name: Name)
    requires s != [] && !(s <= n) && (d == n || d + [name] == n)
    ensures !(s <= d)
  {
  }
}
