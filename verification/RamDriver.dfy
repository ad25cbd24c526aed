/** `RamFs` as an object: each operation keeps the tree and says what became of every path. */
module RamDriver {
  import opened Paths
  import opened RamTree
  import opened RamDirectory

  // ---- the invariant on values ----

  /** Everything in the tree or held open is alive, in the table and numbered below the
      counter; only files are held open, and only held files outlive their last entry. */
  ghost predicate Sound(nodes: Nodes, inodes: set<INode>, next: nat, open: multiset<INode>, paths: map<INode, Path>) {
    && Tree(nodes, paths)
    && nodes.Keys <= inodes && (forall i :: i in inodes ==> i <= next)
    && (forall i :: i in open ==> i in nodes && nodes[i].File?)
    && (forall i :: i in nodes && i !in paths ==> i in open)
  }

  lemma SoundFacts(nodes: Nodes, inodes: set<INode>, next: nat, open: multiset<INode>, paths: map<INode, Path>)
    requires Sound(nodes, inodes, next, open, paths)
    ensures Tree(nodes, paths) && nodes.Keys <= inodes && next + 1 !in nodes
    ensures forall i :: i in open ==> i in nodes && nodes[i].File?
    ensures forall d :: IsDir(nodes, d) ==> d in paths
  {
    assert next + 1 !in inodes;
  }

  lemma AddSound(nodes: Nodes, inodes: set<INode>, next: nat, open: multiset<INode>, paths: map<INode, Path>,
                 d: INode, name: Name, c: Content)
    requires Sound(nodes, inodes, next, open, paths) && IsDir(nodes, d) && Find(nodes[d].entries, name).Err? && Leaf(c)
    ensures d in paths && next + 1 !in nodes
    ensures Sound(Added(nodes, d, name, next + 1, c), inodes + {next + 1}, next + 1, open,
      paths[next + 1 := paths[d] + [name]])
  {
    hide Tree, Find, Added;
    SoundFacts(nodes, inodes, next, open, paths);
    AddKeeps(nodes, paths, d, name, next + 1, c);
    AddRest(nodes, d, name, next + 1, c);
  }

  lemma AddRest(nodes: Nodes, d: INode, name: Name, i: INode, c: Content)
    requires IsDir(nodes, d) && i !in nodes
    ensures var nodes' := Added(nodes, d, name, i, c);
      && nodes'.Keys == nodes.Keys + {i} && nodes'[i] == c
      && forall j :: j in nodes && nodes[j].File? ==> nodes'[j] == nodes[j]
  {
  }

  lemma CleanSound(nodes: Nodes, inodes: set<INode>, next: nat, open: multiset<INode>, paths: map<INode, Path>,
                   i: INode)
    requires Sound(nodes, inodes, next, open, paths) && i !in nodes
    ensures Sound(nodes, inodes - {i}, next, open, paths)
  {
    hide Tree;
  }

  lemma OpenSound(nodes: Nodes, inodes: set<INode>, next: nat, open: multiset<INode>, paths: map<INode, Path>, i: INode)
    requires Sound(nodes, inodes, next, open, paths) && i in nodes && nodes[i].File?
    ensures Sound(nodes, inodes, next, open + multiset{i}, paths)
  {
    hide Tree;
  }

  /** Some directory entry refers to the inode. */
  predicate Linked(nodes: Nodes, i: INode) {
    exists d :: d in nodes && nodes[d].Dir? && exists k :: 0 <= k < |nodes[d].entries| && nodes[d].entries[k].inode == i
  }

  lemma LinkedInTree(nodes: Nodes, paths: map<INode, Path>, i: INode)
    requires Tree(nodes, paths) && i in nodes && nodes[i].File?
    ensures Linked(nodes, i) <==> i in paths
  {
    if Linked(nodes, i) {
      var d :| d in nodes && nodes[d].Dir? && exists k :: 0 <= k < |nodes[d].entries| && nodes[d].entries[k].inode == i;
      var k :| 0 <= k < |nodes[d].entries| && nodes[d].entries[k].inode == i;
      assert nodes[d].entries[k] == Entry(nodes[d].entries[k].name, i);
      PlacedAt(nodes, paths, d, nodes[d].entries[k].name, i);
    }
    if i in paths {
      var d, n := ParentOf(nodes, paths, i);
      var k :| 0 <= k < |nodes[d].entries| && nodes[d].entries[k] == Entry(n, i);
    }
  }

  lemma ReleaseDetached(nodes: Nodes, paths: map<INode, Path>, i: INode)
    requires Tree(nodes, paths) && i in nodes && i !in paths && nodes[i].File?
    ensures Tree(nodes - {i}, paths)
  {
    var nodes' := nodes - {i};
    assert forall d, n, j :: Holds(nodes', d, n, j) <==> Holds(nodes, d, n, j);
    forall j | j in paths && j != ROOT ensures HasParent(nodes', j) {
      var d, n := ParentOf(nodes, paths, j);
      assert Holds(nodes', d, n, j);
    }
  }

  lemma CloseSound(nodes: Nodes, inodes: set<INode>, next: nat, open: multiset<INode>, paths: map<INode, Path>,
                   i: INode)
    requires Sound(nodes, inodes, next, open, paths) && i in open
    ensures i in nodes && (Linked(nodes, i) <==> i in paths)
    ensures var left := open - multiset{i};
      Sound(Release(nodes, i, i in left || Linked(nodes, i)), inodes, next, left, paths)
  {
    hide Tree, Linked;
    LinkedInTree(nodes, paths, i);
    if i !in paths { ReleaseDetached(nodes, paths, i); }
  }

  /** The nodes after unlinking `name`. */
  function AfterUnlink(nodes: Nodes, d: INode, name: Name, x: INode, held: bool): Nodes
    requires IsDir(nodes, d) && IndexOf(nodes[d].entries, name) < |nodes[d].entries|
  {
    Release(WithEntries(nodes, d, RemoveAt(nodes[d].entries, IndexOf(nodes[d].entries, name))), x, held)
  }

  lemma UnlinkSound(nodes: Nodes, inodes: set<INode>, next: nat, open: multiset<INode>, paths: map<INode, Path>,
                    d: INode, name: Name, x: INode)
    requires Sound(nodes, inodes, next, open, paths) && IsDir(nodes, d) && Holds(nodes, d, name, x) && x in nodes
    requires Leaf(nodes[x])
    ensures IndexOf(nodes[d].entries, name) < |nodes[d].entries|
    ensures Sound(AfterUnlink(nodes, d, name, x, x in open), inodes, next, open, paths - {x})
  {
    hide Tree, IndexOf, RemoveAt, Unlinked, AfterUnlink, Holds;
    HeldApart(nodes, paths, d, name, x);
    AfterUnlinkKeeps(nodes, paths, d, name, x, x in open);
    UnlinkRest(nodes, d, name, x, x in open);
  }

  lemma AfterUnlinkKeeps(nodes: Nodes, paths: map<INode, Path>, d: INode, name: Name, x: INode, held: bool)
    requires Tree(nodes, paths) && IsDir(nodes, d) && Holds(nodes, d, name, x) && x in nodes && Leaf(nodes[x])
    requires MayHold(nodes, x, held)
    ensures IndexOf(nodes[d].entries, name) < |nodes[d].entries|
    ensures Tree(AfterUnlink(nodes, d, name, x, held), paths - {x})
  {
    hide Tree, IndexOf, RemoveAt, Unlinked, Holds;
    UnlinkShape(nodes, paths, d, name, x, held);
    UnlinkKeeps(nodes, AfterUnlink(nodes, d, name, x, held), paths, d, name, x);
  }

  lemma UnlinkRest(nodes: Nodes, d: INode, name: Name, x: INode, held: bool)
    requires IsDir(nodes, d) && IndexOf(nodes[d].entries, name) < |nodes[d].entries| && x in nodes && d != x
    ensures var nodes' := AfterUnlink(nodes, d, name, x, held);
      && nodes'.Keys == (if held then nodes.Keys else nodes.Keys - {x})
      && (forall i :: i in nodes' && i != d ==> nodes'[i] == nodes[i])
      && d in nodes' && nodes'[d].Dir?
  {
  }

  /** The entries after a rename: in place within one directory, or removed here and appended
      or replaced there. */
  function Reentry(nodes: Nodes, d1: INode, n1: Name, x: INode, d2: INode, n2: Name): Nodes
    requires IsDir(nodes, d1) && IsDir(nodes, d2) && IndexOf(nodes[d1].entries, n1) < |nodes[d1].entries|
  {
    if d1 == d2 then WithEntries(nodes, d1, ForceRename(nodes[d1].entries, n1, n2))
    else
      WithEntries(WithEntries(nodes, d1, RemoveAt(nodes[d1].entries, IndexOf(nodes[d1].entries, n1))),
                  d2, AppendOrReplace(nodes[d2].entries, n2, x))
  }

  function AfterRename(nodes: Nodes, open: multiset<INode>, d1: INode, n1: Name, x: INode, d2: INode, n2: Name): Nodes
    requires IsDir(nodes, d1) && IsDir(nodes, d2) && IndexOf(nodes[d1].entries, n1) < |nodes[d1].entries|
  {
    var mid := Reentry(nodes, d1, n1, x, d2, n2);
    match Find(nodes[d2].entries, n2)
    case Ok(v) => Release(mid, v, v in open)
    case Err(_) => mid
  }

  lemma ReentryIs(nodes: Nodes, paths: map<INode, Path>, d1: INode, n1: Name, x: INode, d2: INode, n2: Name)
    requires MayMove(nodes, paths, d1, n1, x, d2, n2)
    ensures IndexOf(nodes[d1].entries, n1) < |nodes[d1].entries|
    ensures Reentered(nodes, Reentry(nodes, d1, n1, x, d2, n2), d1, n1, x, d2, n2)
  {
    hide Tree, IndexOf, RemoveAt, ForceRename, AppendOrReplace, WithEntries, Reentered, Distinct;
    RootedDirs(nodes, paths);
    if d1 == d2 { ReenterSame(nodes, d1, n1, x, n2); } else { ReenterOther(nodes, d1, n1, x, d2, n2); }
  }

  lemma RenameKeeps(nodes: Nodes, open: multiset<INode>, paths: map<INode, Path>,
                    d1: INode, n1: Name, x: INode, d2: INode, n2: Name)
    requires MayMove(nodes, paths, d1, n1, x, d2, n2) && forall i :: i in open ==> i in nodes && nodes[i].File?
    ensures IndexOf(nodes[d1].entries, n1) < |nodes[d1].entries|
    ensures Tree(AfterRename(nodes, open, d1, n1, x, d2, n2),
                 Relocated(paths, paths[x], paths[d2] + [n2], Victims(nodes, d2, n2)))
  {
    hide Tree, IndexOf, Reentry, Reentered, Moved, Relocated;
    ReentryIs(nodes, paths, d1, n1, x, d2, n2);
    var mid := Reentry(nodes, d1, n1, x, d2, n2);
    FoundAt(nodes, paths, d2, n2);
    var t := Find(nodes[d2].entries, n2);
    hide Find;
    if t.Ok? {
      MoveShape(nodes, mid, paths, d1, n1, x, d2, n2, t.value, t.value in open);
    } else {
      MoveShapeNone(nodes, mid, paths, d1, n1, x, d2, n2);
    }
    MoveKeeps(nodes, AfterRename(nodes, open, d1, n1, x, d2, n2), paths, d1, n1, x, d2, n2, Victims(nodes, d2, n2));
  }

  /** A rename touches no file's content and forgets only what it replaced. */
  lemma RenameRest(nodes: Nodes, open: multiset<INode>, d1: INode, n1: Name, x: INode, d2: INode, n2: Name)
    requires IsDir(nodes, d1) && IsDir(nodes, d2) && IndexOf(nodes[d1].entries, n1) < |nodes[d1].entries|
    ensures var nodes' := AfterRename(nodes, open, d1, n1, x, d2, n2);
      && nodes'.Keys <= nodes.Keys && nodes.Keys - Victims(nodes, d2, n2) <= nodes'.Keys
      && (forall i :: i in nodes && i in open ==> i in nodes')
      && (forall v :: v in Victims(nodes, d2, n2) && v in nodes' ==> v in open)
      && (forall i :: i in nodes' && i in nodes && nodes[i].File? ==> nodes'[i] == nodes[i])
      && (forall i :: i in nodes' && i in nodes && nodes[i].Dir? ==> nodes'[i].Dir?)
  {
    hide ForceRename, RemoveAt, AppendOrReplace, IndexOf, Find;
  }

  lemma RenameSound(nodes: Nodes, inodes: set<INode>, next: nat, open: multiset<INode>, paths: map<INode, Path>,
                    d1: INode, n1: Name, x: INode, d2: INode, n2: Name)
    requires Sound(nodes, inodes, next, open, paths) && MayMove(nodes, paths, d1, n1, x, d2, n2)
    ensures IndexOf(nodes[d1].entries, n1) < |nodes[d1].entries|
    ensures Sound(AfterRename(nodes, open, d1, n1, x, d2, n2), inodes, next, open,
                  Relocated(paths, paths[x], paths[d2] + [n2], Victims(nodes, d2, n2)))
  {
    hide Tree, IndexOf, AfterRename, Victims, Relocate;
    RenameKeeps(nodes, open, paths, d1, n1, x, d2, n2);
    RenameRest(nodes, open, d1, n1, x, d2, n2);
  }

  /** What a directory finds, and where it is. */
  lemma FoundAt(nodes: Nodes, paths: map<INode, Path>, d: INode, name: Name)
    requires Tree(nodes, paths) && IsDir(nodes, d)
    ensures d in paths && Lookup(nodes, d, name) == Find(nodes[d].entries, name)
    ensures var l := Find(nodes[d].entries, name);
      if l.Err? then l.error == NotFound
      else Holds(nodes, d, name, l.value) && l.value in nodes && l.value in paths && l.value != d
           && paths[l.value] == paths[d] + [name]
  {
    FindMeans(nodes[d].entries, name);
    if Find(nodes[d].entries, name).Ok? { HeldApart(nodes, paths, d, name, Find(nodes[d].entries, name).value); }
    hide Find;
  }

  lemma HeldIn(nodes: Nodes, d: INode, n: Name, x: INode)
    requires Holds(nodes, d, n, x)
    ensures IsDir(nodes, d)
  {
  }

  lemma MoveAllowed(nodes: Nodes, paths: map<INode, Path>, d1: INode, n1: Name, x: INode, d2: INode, n2: Name)
    requires Tree(nodes, paths) && IsDir(nodes, d1) && IsDir(nodes, d2) && Find(nodes[d1].entries, n1) == Ok(x)
    requires d1 in paths && d2 in paths && !(paths[d1] + [n1] <= paths[d2])
    requires var t := Find(nodes[d2].entries, n2); t.Ok? ==> t.value in nodes && t.value != x && Leaf(nodes[t.value])
    ensures MayMove(nodes, paths, d1, n1, x, d2, n2)
  {
    FoundAt(nodes, paths, d1, n1);
    FindExact(nodes, paths, d2, n2);
    hide Find, Tree, Holds;
  }

  /** When `make_node` succeeds: a directory, a new name, and room in the inode table. */
  predicate MayAdd(nodes: Nodes, inodes: set<INode>, dir: INode, name: Name) {
    IsDir(nodes, dir) && Find(nodes[dir].entries, name).Err? && |inodes| < INODE_MAX
  }

  /** Each error of adding in exactly its case. */
  ghost predicate AddAnswer(nodes: Nodes, inodes: set<INode>, dir: INode, name: Name, r: Result<INode>) {
    && (r == Err(AlreadyExists) <==> IsDir(nodes, dir) && Find(nodes[dir].entries, name).Ok?)
    && (r == Err(NotADirectory) <==> dir in nodes && !IsDir(nodes, dir))
    && (r == Err(NotFound) <==> dir !in nodes)
    && (r == Err(FilesystemQuotaExceeded) <==>
          IsDir(nodes, dir) && Find(nodes[dir].entries, name).Err? && |inodes| >= INODE_MAX)
  }

  /** When `unlink` succeeds: the name is there and holds nothing. */
  predicate MayUnlink(nodes: Nodes, dir: INode, name: Name) {
    var l := Lookup(nodes, dir, name);
    l.Ok? && l.value in nodes && Leaf(nodes[l.value])
  }

  /** When `rename` succeeds: the source is there, the target's directory is one, and the new
      name is free or may be replaced and holds nothing. */
  predicate MayRename(nodes: Nodes, d1: INode, n1: Name, d2: INode, n2: Name, replace: bool) {
    && Lookup(nodes, d1, n1).Ok? && IsDir(nodes, d2)
    && (Lookup(nodes, d2, n2).Err? || (replace && MayUnlink(nodes, d2, n2)))
  }

  /** Every path through the old place goes through the new one, every other path stays;
      what the new name held is gone from the tree. Renaming something to itself does
      nothing. No file's content changes. */
  ghost predicate RenameEffect(before: Nodes, was: map<INode, Path>, d1: INode, n1: Name, d2: INode, n2: Name,
                               after: Nodes, now: map<INode, Path>) {
    && d1 in was && d2 in was && Lookup(before, d1, n1).Ok?
    && (if Lookup(before, d2, n2) == Lookup(before, d1, n1) then now == was && after == before
        else now == Relocated(was, was[d1] + [n1], was[d2] + [n2], Victims(before, d2, n2)))
    && (forall i :: i in after && i in before && before[i].File? ==> after[i] == before[i])
    && after.Keys <= before.Keys
  }

  /** The table after a look at `i`: without it, if it is dead. */
  function Alive(table: set<INode>, nodes: Nodes, i: INode): set<INode> { if i in nodes then table else table - {i} }

  /** What the name stands for, or the directory itself if for nothing. */
  function Found(nodes: Nodes, dir: INode, name: Name): INode {
    if Lookup(nodes, dir, name).Ok? then Lookup(nodes, dir, name).value else dir
  }

  class RamFs {
    /** Entities that are alive: in the tree, or a file held open. */
    var nodes: Nodes
    /** Keys of the table of weak references; some may be dead. */
    var inodes: set<INode>
    var nextInode: nat
    /** One element per access token. */
    var open: multiset<INode>
    /** Where each inode of the tree is. */
    ghost var paths: map<INode, Path>

    ghost predicate Valid()
      reads this
    {
      Sound(nodes, inodes, nextInode, open, paths)
    }

    constructor ()
      ensures Valid() && paths == map[ROOT := []] && nodes == map[ROOT := Dir([])] && nextInode == ROOT
      ensures open == multiset{}
    {
      nodes, inodes, nextInode, open, paths := map[ROOT := Dir([])], {ROOT}, ROOT, multiset{}, map[ROOT := []];
    }

    /** Looks the entity up; a dead table entry is cleaned away. */
    method GetEntity(i: INode) returns (alive: bool)
      requires Valid()
      modifies this`inodes
      ensures Valid() && (alive <==> i in nodes)
      ensures inodes == Alive(old(inodes), old(nodes), i)
    {
      hide Sound;
      SoundFacts(nodes, inodes, nextInode, open, paths);
      alive := i in inodes && i in nodes;
      if i !in nodes { CleanSound(nodes, inodes, nextInode, open, paths, i); }
      if i in inodes && i !in nodes { inodes := inodes - {i}; }
    }

    /** `next_inode`: numbers only go up; the quota counts dead table entries too. */
    method NextInode() returns (r: Result<INode>)
      modifies this`nextInode
      ensures r == (if |inodes| < INODE_MAX then Ok(old(nextInode) + 1) else Err(FilesystemQuotaExceeded))
      ensures nextInode == old(nextInode) + if r.Ok? then 1 else 0
    {
      if |inodes| < INODE_MAX {
        nextInode := nextInode + 1;
        return Ok(nextInode);
      }
      return Err(FilesystemQuotaExceeded);
    }

    method MakeNode(dir: INode, name: Name, isDir: bool) returns (r: Result<INode>)
      requires Valid()
      modifies this`nodes, this`inodes, this`nextInode, this`paths
      ensures Valid()
      ensures r.Ok? ==>
        && IsDir(old(nodes), dir) && dir in old(paths) && Find(old(nodes)[dir].entries, name).Err?
        && r.value == old(nextInode) + 1 == nextInode
        && nodes == Added(old(nodes), dir, name, r.value, if isDir then Dir([]) else File([]))
        && paths == old(paths)[r.value := old(paths)[dir] + [name]]
      ensures r.Err? ==> nodes == old(nodes) && paths == old(paths) && nextInode == old(nextInode)
      ensures inodes == if r.Ok? then old(inodes) + {r.value} else Alive(old(inodes), old(nodes), dir)
      ensures r.Ok? <==> MayAdd(old(nodes), old(inodes), dir, name)
      ensures AddAnswer(old(nodes), old(inodes), dir, name, r)
    {
      hide Sound, Tree, Find, Added;
      var alive := GetEntity(dir);
      if !alive { return Err(NotFound); }
      if nodes[dir].File? { return Err(NotADirectory); }
      if Find(nodes[dir].entries, name).Ok? { return Err(AlreadyExists); }
      var c := if isDir then Dir([]) else File([]);
      AddSound(nodes, inodes, nextInode, open, paths, dir, name, c);
      r := NextInode();
      if r.Err? { return; }
      var i := r.value;
      inodes := inodes + {i};
      paths := paths[i := paths[dir] + [name]];
      nodes := Added(nodes, dir, name, i, c);
    }

    /** `creat` also opens the new file. */
    method Creat(dir: INode, name: Name) returns (r: Result<INode>)
      requires Valid()
      modifies this
      ensures Valid()
      ensures r.Ok? ==>
        && IsDir(old(nodes), dir) && dir in old(paths) && Find(old(nodes)[dir].entries, name).Err?
        && r.value == old(nextInode) + 1 == nextInode && open == old(open) + multiset{r.value}
        && nodes == Added(old(nodes), dir, name, r.value, File([]))
        && paths == old(paths)[r.value := old(paths)[dir] + [name]]
      ensures r.Err? ==> nodes == old(nodes) && paths == old(paths) && nextInode == old(nextInode) && open == old(open)
      ensures inodes == if r.Ok? then old(inodes) + {r.value} else Alive(old(inodes), old(nodes), dir)
      ensures r.Ok? <==> MayAdd(old(nodes), old(inodes), dir, name)
      ensures AddAnswer(old(nodes), old(inodes), dir, name, r)
    {
      hide Sound, Tree, Find;
      SoundFacts(nodes, inodes, nextInode, open, paths);
      r := MakeNode(dir, name, false);
      if r.Ok? {
        OpenSound(nodes, inodes, nextInode, open, paths, r.value);
        open := open + multiset{r.value};
      }
    }

    /** An access token for a file that exists. */
    method Open(i: INode) returns (r: Result<INode>)
      requires Valid() && !IsDir(nodes, i)
      modifies this`open, this`inodes
      ensures Valid()
      ensures r == if i in nodes then Ok(i) else Err(NotFound)
      ensures inodes == Alive(old(inodes), nodes, i)
      ensures open == old(open) + if r.Ok? then multiset{i} else multiset{}
    {
      hide Sound;
      var alive := GetEntity(i);
      if !alive { return Err(NotFound); }
      OpenSound(nodes, inodes, nextInode, open, paths, i);
      open := open + multiset{i};
      return Ok(i);
    }

    /** Dropping an access token; an unlinked file goes with its last one. */
    method Close(i: INode)
      requires Valid() && i in open
      modifies this`open, this`nodes
      ensures Valid() && open == old(open) - multiset{i}
      ensures nodes == Release(old(nodes), i, i in open || i in paths)
    {
      hide Sound, Linked;
      CloseSound(nodes, inodes, nextInode, open, paths, i);
      open := open - multiset{i};
      if i !in open && !Linked(nodes, i) { nodes := nodes - {i}; }
    }

    method Unlink(dir: INode, name: Name) returns (r: Result<()>)
      requires Valid()
      modifies this`nodes, this`inodes, this`paths
      ensures Valid()
      ensures r.Ok? <==> MayUnlink(old(nodes), dir, name)
      ensures r.Ok? ==> UnlinkEffect(old(nodes), old(paths), dir, name, nodes, inodes, paths)
      ensures r.Err? ==> nodes == old(nodes) && paths == old(paths)
      ensures inodes ==
        Alive(Alive(old(inodes), old(nodes), dir), nodes, if r.Ok? then Found(old(nodes), dir, name) else dir)
      ensures r == Err(DirectoryNotEmpty) <==>
        var l := Lookup(old(nodes), dir, name); l.Ok? && l.value in old(nodes) && !Leaf(old(nodes)[l.value])
      ensures r == Err(NotADirectory) <==> dir in old(nodes) && !IsDir(old(nodes), dir)
      ensures r == Err(NotFound) <==>
        dir !in old(nodes) || (IsDir(old(nodes), dir) && Lookup(old(nodes), dir, name).Err?)
    {
      hide Sound, Tree, Find, Holds, AfterUnlink;
      SoundFacts(nodes, inodes, nextInode, open, paths);
      var alive := GetEntity(dir);
      if !alive { return Err(NotFound); }
      if nodes[dir].File? { return Err(NotADirectory); }
      FoundAt(nodes, paths, dir, name);
      var l := Find(nodes[dir].entries, name);
      if l.Err? { return Err(l.error); }
      var x := l.value;
      if !Leaf(nodes[x]) { return Err(DirectoryNotEmpty); }
      UnlinkSound(nodes, inodes, nextInode, open, paths, dir, name, x);
      UnlinkRest(nodes, dir, name, x, x in open);
      nodes := AfterUnlink(nodes, dir, name, x, x in open);
      paths := paths - {x};
      var _ := GetEntity(x);
      return Ok(());
    }

    /** Renames the entry `oldName` of `oldDir`. The driver does not look for cycles: that the
        new directory is not below what moves is the caller's business. */
    method Rename(oldDir: INode, oldName: Name, newDir: INode, newName: Name, replace: bool) returns (r: Result<()>)
      requires Valid() && (newDir in paths && oldDir in paths ==> !(paths[oldDir] + [oldName] <= paths[newDir]))
      modifies this`nodes, this`inodes, this`paths
      ensures Valid()
      ensures r.Ok? <==> MayRename(old(nodes), oldDir, oldName, newDir, newName, replace)
      ensures r.Ok? ==> RenameEffect(old(nodes), old(paths), oldDir, oldName, newDir, newName, nodes, paths)
      ensures r.Err? ==> nodes == old(nodes) && paths == old(paths)
      ensures oldDir in old(nodes) && newDir in old(nodes) ==> inodes == old(inodes)
      ensures r == Err(NotADirectory) <==>
        || (oldDir in old(nodes) && !IsDir(old(nodes), oldDir))
        || (Lookup(old(nodes), oldDir, oldName).Ok? && newDir in old(nodes) && !IsDir(old(nodes), newDir))
      ensures r == Err(NotFound) <==>
        || oldDir !in old(nodes) || (IsDir(old(nodes), oldDir) && Lookup(old(nodes), oldDir, oldName).Err?)
        || (Lookup(old(nodes), oldDir, oldName).Ok? && newDir !in old(nodes))
      ensures r == Err(AlreadyExists) <==>
        !replace && Lookup(old(nodes), oldDir, oldName).Ok? && Lookup(old(nodes), newDir, newName).Ok?
      ensures r == Err(DirectoryNotEmpty) <==>
        && replace && Lookup(old(nodes), oldDir, oldName).Ok? && Lookup(old(nodes), newDir, newName).Ok?
        && !MayUnlink(old(nodes), newDir, newName)
    {
      hide Sound, Tree, Find, Holds, MayMove, Relocated, Victims;
      SoundFacts(nodes, inodes, nextInode, open, paths);
      var alive := GetEntity(oldDir);
      if !alive { return Err(NotFound); }
      if nodes[oldDir].File? { return Err(NotADirectory); }
      FoundAt(nodes, paths, oldDir, oldName);
      var o := Find(nodes[oldDir].entries, oldName);
      if o.Err? { return Err(o.error); }
      var x := o.value;
      if newDir != oldDir {
        alive := GetEntity(newDir);
        if !alive { return Err(NotFound); }
        if nodes[newDir].File? { return Err(NotADirectory); }
      }
      FoundAt(nodes, paths, newDir, newName);
      var t := Find(nodes[newDir].entries, newName);
      if t.Ok? {
        if !replace { return Err(AlreadyExists); }
        if !Leaf(nodes[t.value]) { return Err(DirectoryNotEmpty); }
        if t.value == x { return Ok(()); }
      }
      MoveAllowed(nodes, paths, oldDir, oldName, x, newDir, newName);
      Relink(oldDir, oldName, x, newDir, newName);
      return Ok(());
    }

    /** Both entries are rewritten, and what the new one replaced is released. */
    method Relink(oldDir: INode, oldName: Name, x: INode, newDir: INode, newName: Name)
      requires Valid() && MayMove(nodes, paths, oldDir, oldName, x, newDir, newName)
      modifies this`nodes, this`paths
      ensures Valid() && x in old(paths) && newDir in old(paths)
      ensures paths == Relocated(old(paths), old(paths)[x], old(paths)[newDir] + [newName],
        Victims(old(nodes), newDir, newName))
      ensures nodes.Keys <= old(nodes).Keys
      ensures forall i :: i in nodes && i in old(nodes) && old(nodes)[i].File? ==> nodes[i] == old(nodes)[i]
    {
      hide Sound, Tree, AfterRename, Relocated, Victims, Holds;
      SoundFacts(nodes, inodes, nextInode, open, paths);
      PlacedAt(nodes, paths, oldDir, oldName, x);
      RenameSound(nodes, inodes, nextInode, open, paths, oldDir, oldName, x, newDir, newName);
      assert IsDir(nodes, oldDir) by { HeldIn(nodes, oldDir, oldName, x); }
      RenameRest(nodes, open, oldDir, oldName, x, newDir, newName);
      paths := Relocated(paths, paths[x], paths[newDir] + [newName], Victims(nodes, newDir, newName));
      nodes := AfterRename(nodes, open, oldDir, oldName, x, newDir, newName);
    }

    /** The entry goes, with the path; every other path and every file's content stays. The
        entity and its table entry stay only while the file is held open. */
    ghost predicate UnlinkEffect(before: Nodes, was: map<INode, Path>, dir: INode, name: Name,
                                 after: Nodes, table: set<INode>, now: map<INode, Path>)
      reads this`open
    {
      && Lookup(before, dir, name).Ok?
      && var x := Lookup(before, dir, name).value;
         && x in before && Leaf(before[x]) && dir in was && x in was && was[x] == was[dir] + [name]
         && now == was - {x} && (x in after <==> x in open) && (x in table <==> x in open)
         && (forall i :: i in after && after[i].File? ==> i in before && after[i] == before[i])
         && (forall i :: i in before && i != x ==> i in after)
    }
  }
}
