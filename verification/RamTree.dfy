/** The shape of the RAM file system: directories hold entries, and a map from inodes to
    paths witnesses that the entries form a tree. */
module RamTree {
  import opened Paths

  type INode = nat

  const ROOT: INode := 2

  datatype Entry = Entry(name: Name, inode: INode)

  datatype Content = File(data: seq<nat>) | Dir(entries: seq<Entry>)

  type Nodes = map<INode, Content>

  datatype Error =
    | NotFound | NotADirectory | IsADirectory | AlreadyExists | DirectoryNotEmpty | FilesystemQuotaExceeded
    | InvalidInput | CrossesDevices

  datatype Result<T> = Ok(value: T) | Err(error: Error)

  predicate IsDir(nodes: Nodes, d: INode) { d in nodes && nodes[d].Dir? }

  /** `find`: the first entry of that name. */
  function Find(es: seq<Entry>, name: Name): Result<INode> {
    if es == [] then Err(NotFound) else if es[0].name == name then Ok(es[0].inode) else Find(es[1..], name)
  }

  predicate Distinct(es: seq<Entry>) { forall i, j :: 0 <= i < j < |es| ==> es[i].name != es[j].name }

  predicate Holds(nodes: Nodes, d: INode, name: Name, i: INode) {
    IsDir(nodes, d) && Entry(name, i) in nodes[d].entries
  }

  function Lookup(nodes: Nodes, d: INode, name: Name): Result<INode> {
    if d !in nodes then Err(NotFound)
    else if nodes[d].File? then Err(NotADirectory)
    else Find(nodes[d].entries, name)
  }

  function Walk(nodes: Nodes, d: INode, p: Path): Result<INode>
    decreases |p|
  {
    if p == [] then Ok(d)
    else
      match Lookup(nodes, d, p[0])
      case Ok(i) => Walk(nodes, i, p[1..])
      case Err(e) => Err(e)
  }

  ghost predicate HasParent(nodes: Nodes, i: INode) { exists d, n :: Holds(nodes, d, n, i) }

  ghost predicate Tree(nodes: Nodes, paths: map<INode, Path>) {
    Rooted(nodes, paths) && Placed(nodes, paths) && Parented(nodes, paths) && Injective(paths)
  }

  /** The root is there, directories are in the tree and name their entries uniquely. */
  ghost predicate Rooted(nodes: Nodes, paths: map<INode, Path>) {
    && IsDir(nodes, ROOT) && ROOT in paths && paths[ROOT] == [] && paths.Keys <= nodes.Keys
    && (forall d :: IsDir(nodes, d) ==> d in paths && Distinct(nodes[d].entries))
  }

  ghost predicate Placed(nodes: Nodes, paths: map<INode, Path>) {
    forall d, n, i :: Holds(nodes, d, n, i) ==> d in paths && i in paths && paths[i] == paths[d] + [n]
  }

  ghost predicate Parented(nodes: Nodes, paths: map<INode, Path>) {
    forall i :: i in paths && i != ROOT ==> HasParent(nodes, i)
  }

  ghost predicate Injective(paths: map<INode, Path>) {
    forall i, j :: i in paths && j in paths && paths[i] == paths[j] ==> i == j
  }

  // ---- what the invariant means ----

  lemma {:induction false} FindMeans(es: seq<Entry>, name: Name)
    ensures match Find(es, name)
      case Ok(i) => Entry(name, i) in es
      case Err(e) => e == NotFound && forall i :: Entry(name, i) !in es
  {
    if es != [] && es[0].name != name {
      FindMeans(es[1..], name);
      assert es == [es[0]] + es[1..];
    } else if es != [] {
      assert es[0] in es;
    }
  }

  lemma FindExact(nodes: Nodes, paths: map<INode, Path>, d: INode, name: Name)
    requires Tree(nodes, paths) && d in paths
    ensures forall i: INode :: Lookup(nodes, d, name) == Ok(i) <==> Holds(nodes, d, name, i)
    ensures IsDir(nodes, d) ==> Lookup(nodes, d, name) == Find(nodes[d].entries, name)
  {
    if IsDir(nodes, d) { FindMeans(nodes[d].entries, name); }
  }

  lemma PlacedAt(nodes: Nodes, paths: map<INode, Path>, d: INode, n: Name, i: INode)
    requires Tree(nodes, paths) && Holds(nodes, d, n, i)
    ensures d in paths && i in paths && paths[i] == paths[d] + [n]
  {
  }

  lemma SamePath(nodes: Nodes, paths: map<INode, Path>, i: INode, j: INode)
    requires Tree(nodes, paths) && i in paths && j in paths && paths[i] == paths[j]
    ensures i == j
  {
  }

  /** The parent of an inode, and its name there. */
  lemma ParentOf(nodes: Nodes, paths: map<INode, Path>, i: INode) returns (d: INode, n: Name)
    requires Tree(nodes, paths) && i in paths && i != ROOT
    ensures Holds(nodes, d, n, i) && paths[i] == paths[d] + [n]
  {
    assert HasParent(nodes, i);
    d, n :| Holds(nodes, d, n, i);
  }

  /** The inode at a path holds whatever has the path in its directory. */
  lemma EntryAt(nodes: Nodes, paths: map<INode, Path>, i: INode, d: INode, n: Name)
    requires Tree(nodes, paths) && i in paths && d in paths && paths[i] == paths[d] + [n]
    ensures Holds(nodes, d, n, i)
  {
    var d', n' := ParentOf(nodes, paths, i);
    assert paths[d] == paths[i][..|paths[i]| - 1] == paths[d'];
  }

  /** Every prefix of an inode's path is the path of a directory above it. */
  lemma {:induction false} Ancestor(nodes: Nodes, paths: map<INode, Path>, i: INode, k: nat) returns (a: INode)
    requires Tree(nodes, paths) && i in paths && k <= |paths[i]|
    ensures a in paths && paths[a] == paths[i][..k]
    ensures k < |paths[i]| ==> IsDir(nodes, a) && nodes[a].entries != []
    decreases |paths[i]|
  {
    if k == |paths[i]| {
      a := i;
    } else {
      var d, n := ParentOf(nodes, paths, i);
      a := Ancestor(nodes, paths, d, k);
    }
  }

  /** A walk fails for want of a name or because a file stands in the way. */
  lemma {:induction false} WalkError(nodes: Nodes, d: INode, p: Path)
    ensures Walk(nodes, d, p).Err? ==> Walk(nodes, d, p).error == NotFound || Walk(nodes, d, p).error == NotADirectory
    decreases |p|
  {
    if p != [] {
      var l := Lookup(nodes, d, p[0]);
      if IsDir(nodes, d) { FindMeans(nodes[d].entries, p[0]); }
      if l.Ok? { WalkError(nodes, l.value, p[1..]); }
    }
  }

  /** Resolution and the path map agree: walking a path from a directory arrives at `i`
      exactly when `i` has that path. */
  lemma {:induction false} WalkExact(nodes: Nodes, paths: map<INode, Path>, d: INode, p: Path, i: INode)
    requires Tree(nodes, paths) && d in paths
    ensures Walk(nodes, d, p) == Ok(i) <==> i in paths && paths[i] == paths[d] + p
    decreases |p|
  {
    hide Tree, Lookup, Holds;
    if p != [] {
      var r := Lookup(nodes, d, p[0]);
      FindExact(nodes, paths, d, p[0]);
      if r.Ok? {
        var j := r.value;
        PlacedAt(nodes, paths, d, p[0], j);
        WalkExact(nodes, paths, j, p[1..], i);
        assert paths[j] + p[1..] == paths[d] + p;
      } else if i in paths && paths[i] == paths[d] + p {
        var a := Ancestor(nodes, paths, i, |paths[d]| + 1);
        EntryAt(nodes, paths, a, d, p[0]);
      }
    } else {
      assert paths[d] + p == paths[d];
      if i in paths && paths[i] == paths[d] { SamePath(nodes, paths, i, d); }
    }
  }

  /** The invariant says tree: names are unique in each directory, every inode but the root
      is under exactly one entry, everything is reached from the root, nothing contains
      itself. */
  lemma TreeMeans(nodes: Nodes, paths: map<INode, Path>)
    requires Tree(nodes, paths)
    ensures forall d, n, i, j :: Holds(nodes, d, n, i) && Holds(nodes, d, n, j) ==> i == j
    ensures forall i :: i in paths && i != ROOT ==> HasParent(nodes, i)
    ensures forall d, n, e, o, i :: Holds(nodes, d, n, i) && Holds(nodes, e, o, i) ==> d == e && n == o
    ensures forall d, n :: !Holds(nodes, d, n, ROOT)
    ensures forall i :: i in paths ==> Walk(nodes, ROOT, paths[i]) == Ok(i)
    ensures forall d, p :: d in paths && p != [] ==> Walk(nodes, d, p) != Ok(d)
  {
    forall d, n, e, o, i | Holds(nodes, d, n, i) && Holds(nodes, e, o, i) ensures d == e && n == o {
      assert paths[i][..|paths[i]| - 1] == paths[d] == paths[e];
      assert paths[i][|paths[i]| - 1] == n == o;
    }
    forall i | i in paths ensures Walk(nodes, ROOT, paths[i]) == Ok(i) {
      WalkExact(nodes, paths, ROOT, paths[i], i);
      assert paths[ROOT] + paths[i] == paths[i];
    }
    forall d, p | d in paths && p != [] ensures Walk(nodes, d, p) != Ok(d) {
      WalkExact(nodes, paths, d, p, d);
      assert |paths[d] + p| > |paths[d]|;
    }
  }

  // ---- adding ----

  predicate Leaf(c: Content) { c.File? || c.entries == [] }

  function Added(nodes: Nodes, d: INode, name: Name, new_: INode, c: Content): Nodes
    requires IsDir(nodes, d)
  {
    nodes[new_ := c][d := Dir(nodes[d].entries + [Entry(name, new_)])]
  }

  lemma AddHolds(nodes: Nodes, d: INode, name: Name, new_: INode, c: Content)
    requires IsDir(nodes, d) && new_ !in nodes && Leaf(c)
    ensures var nodes' := Added(nodes, d, name, new_, c);
      && (forall e, n, i :: Holds(nodes', e, n, i) <==> Holds(nodes, e, n, i) || (e == d && n == name && i == new_))
      && (forall e :: IsDir(nodes', e) <==> IsDir(nodes, e) || (e == new_ && c.Dir?))
  {
  }

  lemma AddDistinct(es: seq<Entry>, name: Name, new_: INode)
    requires Distinct(es) && Find(es, name).Err?
    ensures Distinct(es + [Entry(name, new_)])
  {
    FindMeans(es, name);
    forall k | 0 <= k < |es| ensures es[k].name != name {
      assert es[k] in es && es[k] == Entry(es[k].name, es[k].inode);
    }
  }

  lemma AddKeeps(nodes: Nodes, paths: map<INode, Path>, d: INode, name: Name, new_: INode, c: Content)
    requires Tree(nodes, paths) && IsDir(nodes, d) && Find(nodes[d].entries, name).Err? && new_ !in nodes && Leaf(c)
    ensures Tree(Added(nodes, d, name, new_, c), paths[new_ := paths[d] + [name]])
  {
    AddRooted(nodes, paths, d, name, new_, c);
    AddPlaced(nodes, paths, d, name, new_, c);
    AddParented(nodes, paths, d, name, new_, c);
    AddInjective(nodes, paths, d, name, new_);
    hide Added, Rooted, Placed, Parented, Injective, Find;
  }

  lemma AddRooted(nodes: Nodes, paths: map<INode, Path>, d: INode, name: Name, new_: INode, c: Content)
    requires Tree(nodes, paths) && IsDir(nodes, d) && Find(nodes[d].entries, name).Err? && new_ !in nodes && Leaf(c)
    ensures Rooted(Added(nodes, d, name, new_, c), paths[new_ := paths[d] + [name]])
  {
    hide Find, Distinct, Placed, Parented, Injective;
    AddDistinct(nodes[d].entries, name, new_);
    assert c.Dir? ==> Distinct(c.entries) by { NoneDistinct(); }
  }

  lemma NoneDistinct()
    ensures Distinct([])
  {
  }

  lemma AddPlaced(nodes: Nodes, paths: map<INode, Path>, d: INode, name: Name, new_: INode, c: Content)
    requires Tree(nodes, paths) && IsDir(nodes, d) && d in paths && new_ !in nodes && Leaf(c)
    ensures Placed(Added(nodes, d, name, new_, c), paths[new_ := paths[d] + [name]])
  {
    var nodes', paths' := Added(nodes, d, name, new_, c), paths[new_ := paths[d] + [name]];
    AddHolds(nodes, d, name, new_, c);
    hide Added, Holds, Distinct, Parented;
    forall e, n, i | Holds(nodes', e, n, i) ensures e in paths' && i in paths' && paths'[i] == paths'[e] + [n] {
      if Holds(nodes, e, n, i) { PlacedAt(nodes, paths, e, n, i); }
    }
  }

  lemma AddParented(nodes: Nodes, paths: map<INode, Path>, d: INode, name: Name, new_: INode, c: Content)
    requires Tree(nodes, paths) && IsDir(nodes, d) && d in paths && new_ !in nodes && Leaf(c)
    ensures Parented(Added(nodes, d, name, new_, c), paths[new_ := paths[d] + [name]])
  {
    var nodes', paths' := Added(nodes, d, name, new_, c), paths[new_ := paths[d] + [name]];
    AddHolds(nodes, d, name, new_, c);
    hide Added, Holds, Rooted, Placed, Injective, Distinct;
    assert Holds(nodes', d, name, new_);
    forall i | i in paths' && i != ROOT ensures HasParent(nodes', i) {
      if i != new_ {
        var e, n := ParentOf(nodes, paths, i);
        assert Holds(nodes', e, n, i);
      }
    }
  }

  lemma AddInjective(nodes: Nodes, paths: map<INode, Path>, d: INode, name: Name, new_: INode)
    requires Tree(nodes, paths) && IsDir(nodes, d) && Find(nodes[d].entries, name).Err? && new_ !in nodes
    ensures Injective(paths[new_ := paths[d] + [name]])
  {
    FindMeans(nodes[d].entries, name);
    forall i | i in paths ensures paths[i] != paths[d] + [name] {
      if paths[i] == paths[d] + [name] { EntryAt(nodes, paths, i, d, name); }
    }
    hide Find, Placed, Parented;
  }

  // ---- taking away and moving ----

  /** `nodes'` lost the entry `n1` of `d1`. */
  ghost predicate Unlinked(nodes: Nodes, nodes': Nodes, d1: INode, n1: Name, x: INode) {
    && nodes.Keys - {x} <= nodes'.Keys
    && (forall d :: IsDir(nodes', d) <==> IsDir(nodes, d) && d != x)
    && (forall d :: IsDir(nodes', d) ==> Distinct(nodes'[d].entries))
    && (forall d, n, i :: Holds(nodes', d, n, i) <==> d != x && Holds(nodes, d, n, i) && !(d == d1 && n == n1))
  }

  lemma UnlinkKeeps(nodes: Nodes, nodes': Nodes, paths: map<INode, Path>, d1: INode, n1: Name, x: INode)
    requires Tree(nodes, paths) && Holds(nodes, d1, n1, x) && Leaf(nodes[x]) && Unlinked(nodes, nodes', d1, n1, x)
    ensures Tree(nodes', paths - {x})
  {
    TreeMeans(nodes, paths);
    forall i | i in paths - {x} && i != ROOT ensures HasParent(nodes', i) {
      var d, n := ParentOf(nodes, paths, i);
      assert Holds(nodes', d, n, i);
    }
    assert !Holds(nodes, d1, n1, ROOT);
  }

  /** `nodes'` has the entry `n2` of `d2` for what was the entry `n1` of `d1`, and nothing
      else under either name; `gone` is what the new entry replaced. */
  ghost predicate Moved(nodes: Nodes, nodes': Nodes, d1: INode, n1: Name, x: INode, d2: INode, n2: Name,
                        gone: set<INode>) {
    && nodes.Keys - gone <= nodes'.Keys
    && (forall v :: v in gone <==> Holds(nodes, d2, n2, v))
    && (forall d :: IsDir(nodes', d) <==> IsDir(nodes, d) && d !in gone)
    && (forall d :: IsDir(nodes', d) ==> Distinct(nodes'[d].entries))
    && (forall d, n, i :: Holds(nodes', d, n, i) <==>
          || (d !in gone && Holds(nodes, d, n, i) && !(d == d1 && n == n1) && !(d == d2 && n == n2))
          || (d == d2 && n == n2 && i == x))
  }

  function Relocate(p: Path, from: Path, to: Path): Path {
    if from <= p then to + p[|from|..] else p
  }

  /** Every path that went through `from` now goes through `to`. */
  function Relocated(paths: map<INode, Path>, from: Path, to: Path, gone: set<INode>): map<INode, Path> {
    map i | i in paths && i !in gone :: Relocate(paths[i], from, to)
  }

  /** What the driver itself checks before it moves an entry. */
  ghost predicate Movable(nodes: Nodes, paths: map<INode, Path>, d1: INode, n1: Name, x: INode, d2: INode, n2: Name) {
    && Tree(nodes, paths) && Holds(nodes, d1, n1, x) && IsDir(nodes, d2)
    && !Holds(nodes, d2, n2, x)
    && (forall v :: Holds(nodes, d2, n2, v) ==> Leaf(nodes[v]))
  }

  /** And what it leaves to its caller. */
  ghost predicate MayMove(nodes: Nodes, paths: map<INode, Path>, d1: INode, n1: Name, x: INode, d2: INode, n2: Name) {
    Movable(nodes, paths, d1, n1, x, d2, n2) && !(paths[x] <= paths[d2])
  }

  lemma MovedPlaces(nodes: Nodes, nodes': Nodes, paths: map<INode, Path>,
                    d1: INode, n1: Name, x: INode, d2: INode, n2: Name, gone: set<INode>)
    requires MayMove(nodes, paths, d1, n1, x, d2, n2) && Moved(nodes, nodes', d1, n1, x, d2, n2, gone)
    ensures var paths' := Relocated(paths, paths[x], paths[d2] + [n2], gone);
      && x in paths' && paths'[x] == paths[d2] + [n2] && d2 in paths' && paths'[d2] == paths[d2]
      && ROOT in paths' && paths'[ROOT] == [] && ROOT !in gone
  {
    TreeMeans(nodes, paths);
    assert paths[x] <= paths[x] && paths[x][|paths[x]|..] == [];
    assert |paths[d2]| != |paths[d2] + [n2]|;
    assert !Holds(nodes, d2, n2, ROOT) && !Holds(nodes, d1, n1, ROOT);
  }

  lemma MovedEntry(nodes: Nodes, nodes': Nodes, paths: map<INode, Path>,
                   d1: INode, n1: Name, x: INode, d2: INode, n2: Name, gone: set<INode>, d: INode, n: Name, i: INode)
    requires MayMove(nodes, paths, d1, n1, x, d2, n2) && Moved(nodes, nodes', d1, n1, x, d2, n2, gone)
    requires Holds(nodes', d, n, i)
    ensures var paths' := Relocated(paths, paths[x], paths[d2] + [n2], gone);
      d in paths' && i in paths' && paths'[i] == paths'[d] + [n]
  {
    MovedPlaces(nodes, nodes', paths, d1, n1, x, d2, n2, gone);
    if !(d == d2 && n == n2) {
      MovedOld(nodes, nodes', paths, d1, n1, x, d2, n2, gone, d, n, i);
      hide Tree, Moved, Holds, IsDir, MayMove, Relocate;
      RelocateChild(paths[d], n, paths[x], paths[d2] + [n2]);
    }
  }

  lemma RelocateChild(p: Path, n: Name, from: Path, to: Path)
    requires p + [n] != from
    ensures Relocate(p + [n], from, to) == Relocate(p, from, to) + [n]
  {
    if from <= p { assert (p + [n])[|from|..] == p[|from|..] + [n]; }
  }

  lemma MovedOld(nodes: Nodes, nodes': Nodes, paths: map<INode, Path>,
                 d1: INode, n1: Name, x: INode, d2: INode, n2: Name, gone: set<INode>, d: INode, n: Name, i: INode)
    requires MayMove(nodes, paths, d1, n1, x, d2, n2) && Moved(nodes, nodes', d1, n1, x, d2, n2, gone)
    requires Holds(nodes', d, n, i) && !(d == d2 && n == n2)
    ensures d in paths && i in paths && paths[i] == paths[d] + [n] && d !in gone && i !in gone && paths[i] != paths[x]
  {
    TreeMeans(nodes, paths);
    assert Holds(nodes, d, n, i);
  }

  lemma MovedParent(nodes: Nodes, nodes': Nodes, paths: map<INode, Path>,
                    d1: INode, n1: Name, x: INode, d2: INode, n2: Name, gone: set<INode>, i: INode)
    requires MayMove(nodes, paths, d1, n1, x, d2, n2) && Moved(nodes, nodes', d1, n1, x, d2, n2, gone)
    requires i in paths && i !in gone && i != ROOT
    ensures HasParent(nodes', i)
  {
    TreeMeans(nodes, paths);
    if i == x {
      assert Holds(nodes', d2, n2, x);
    } else {
      var d, n := ParentOf(nodes, paths, i);
      assert Holds(nodes', d, n, i);
    }
  }

  /** Nothing that stays has a path through the new place. */
  lemma NothingBelow(nodes: Nodes, paths: map<INode, Path>, d2: INode, n2: Name, j: INode)
    requires Tree(nodes, paths) && IsDir(nodes, d2) && (forall v :: Holds(nodes, d2, n2, v) ==> Leaf(nodes[v]))
    requires j in paths && paths[d2] + [n2] <= paths[j]
    ensures Holds(nodes, d2, n2, j)
  {
    var t := paths[d2] + [n2];
    var a := Ancestor(nodes, paths, j, |t|);
    EntryAt(nodes, paths, a, d2, n2);
    assert |t| == |paths[j]| ==> paths[a] == paths[j];
  }

  lemma MovedDistinct(nodes: Nodes, nodes': Nodes, paths: map<INode, Path>,
                      d1: INode, n1: Name, x: INode, d2: INode, n2: Name, gone: set<INode>, i: INode, j: INode)
    requires MayMove(nodes, paths, d1, n1, x, d2, n2) && Moved(nodes, nodes', d1, n1, x, d2, n2, gone)
    requires i in paths && i !in gone && j in paths && j !in gone
    requires var s, t := paths[x], paths[d2] + [n2]; Relocate(paths[i], s, t) == Relocate(paths[j], s, t)
    ensures i == j
  {
    RelocateCollides(paths[i], paths[j], paths[x], paths[d2] + [n2]);
    hide Relocate;
    if paths[i] == paths[j] {
      SamePath(nodes, paths, i, j);
    } else if paths[d2] + [n2] <= paths[j] {
      NothingBelow(nodes, paths, d2, n2, j);
    } else {
      NothingBelow(nodes, paths, d2, n2, i);
    }
  }

  /** Two paths relocated to the same one were the same, or one was there already. */
  lemma RelocateCollides(p: Path, q: Path, from: Path, to: Path)
    requires Relocate(p, from, to) == Relocate(q, from, to)
    ensures p == q || (to <= q && !(from <= q)) || (to <= p && !(from <= p))
  {
    if from <= p && from <= q {
      assert p[|from|..] == Relocate(p, from, to)[|to|..] == q[|from|..];
      assert p == from + p[|from|..] && q == from + q[|from|..];
    }
  }

  /** Renaming keeps the tree, and rewrites exactly the paths that began with the old one. */
  lemma MoveKeeps(nodes: Nodes, nodes': Nodes, paths: map<INode, Path>,
                  d1: INode, n1: Name, x: INode, d2: INode, n2: Name, gone: set<INode>)
    requires MayMove(nodes, paths, d1, n1, x, d2, n2) && Moved(nodes, nodes', d1, n1, x, d2, n2, gone)
    ensures Tree(nodes', Relocated(paths, paths[x], paths[d2] + [n2], gone))
  {
    var paths' := Relocated(paths, paths[x], paths[d2] + [n2], gone);
    MovedPlaces(nodes, nodes', paths, d1, n1, x, d2, n2, gone);
    assert Rooted(nodes', paths');
    forall d, n, i | Holds(nodes', d, n, i) ensures d in paths' && i in paths' && paths'[i] == paths'[d] + [n] {
      MovedEntry(nodes, nodes', paths, d1, n1, x, d2, n2, gone, d, n, i);
    }
    hide Tree, Moved, MayMove, Holds, IsDir, Relocate, HasParent;
    forall i | i in paths' && i != ROOT ensures HasParent(nodes', i) {
      MovedParent(nodes, nodes', paths, d1, n1, x, d2, n2, gone, i);
    }
    forall i, j | i in paths' && j in paths' && paths'[i] == paths'[j] ensures i == j {
      MovedDistinct(nodes, nodes', paths, d1, n1, x, d2, n2, gone, i, j);
    }
    TreeOf(nodes', paths');
  }

  lemma TreeOf(nodes: Nodes, paths: map<INode, Path>)
    requires Rooted(nodes, paths) && Placed(nodes, paths) && Parented(nodes, paths) && Injective(paths)
    ensures Tree(nodes, paths)
  {
  }

  // ---- why the prefix test is needed ----

  lemma NewEntry(nodes: Nodes, nodes': Nodes, d1: INode, n1: Name, x: INode, d2: INode, n2: Name, gone: set<INode>)
    requires Moved(nodes, nodes', d1, n1, x, d2, n2, gone)
    ensures Holds(nodes', d2, n2, x)
  {
  }

  lemma KeptEntry(nodes: Nodes, nodes': Nodes, paths: map<INode, Path>,
                  d1: INode, n1: Name, x: INode, d2: INode, n2: Name, gone: set<INode>, e: INode)
    returns (d: INode, n: Name)
    requires Movable(nodes, paths, d1, n1, x, d2, n2) && Moved(nodes, nodes', d1, n1, x, d2, n2, gone)
    requires e in paths && e !in gone && e != x && x in paths && paths[e] != []
    ensures Holds(nodes', d, n, e) && d in paths && d !in gone && paths[e] == paths[d] + [n]
  {
    d, n := ParentOf(nodes, paths, e);
    TreeMeans(nodes, paths);
  }

  /** Below the moved inode the entries stay, so a path map for the result would have to keep
      the suffixes. */
  lemma {:induction false} StaysBelow(nodes: Nodes, nodes': Nodes, paths: map<INode, Path>, q: map<INode, Path>,
                                      d1: INode, n1: Name, x: INode, d2: INode, n2: Name, gone: set<INode>, e: INode)
    requires Movable(nodes, paths, d1, n1, x, d2, n2) && Moved(nodes, nodes', d1, n1, x, d2, n2, gone)
    requires Tree(nodes', q)
    requires e in paths && e !in gone && paths[x] <= paths[e]
    ensures x in q && e in q && |q[e]| == |q[x]| + |paths[e]| - |paths[x]|
    decreases |paths[e]|
  {
    hide Tree, Moved, Holds;
    assert Holds(nodes', d2, n2, x) by { NewEntry(nodes, nodes', d1, n1, x, d2, n2, gone); }
    PlacedAt(nodes', q, d2, n2, x);
    PlacedAt(nodes, paths, d1, n1, x);
    if paths[e] == paths[x] {
      SamePath(nodes, paths, e, x);
    } else {
      var d, n := KeptEntry(nodes, nodes', paths, d1, n1, x, d2, n2, gone, e);
      assert paths[x] <= paths[d];
      StaysBelow(nodes, nodes', paths, q, d1, n1, x, d2, n2, gone, d);
      PlacedAt(nodes', q, d, n, e);
    }
  }

  lemma NoTreeBelowItself(nodes: Nodes, nodes': Nodes, paths: map<INode, Path>, q: map<INode, Path>,
                          d1: INode, n1: Name, x: INode, d2: INode, n2: Name, gone: set<INode>)
    requires Movable(nodes, paths, d1, n1, x, d2, n2) && Moved(nodes, nodes', d1, n1, x, d2, n2, gone)
    requires paths[x] <= paths[d2]
    ensures !Tree(nodes', q)
  {
    assert |paths[d2]| != |paths[d2] + [n2]|;
    assert d2 !in gone;
    assert Holds(nodes', d2, n2, x);
    hide Moved, Movable, Tree, Holds;
    if Tree(nodes', q) {
      StaysBelow(nodes, nodes', paths, q, d1, n1, x, d2, n2, gone, d2);
      PlacedAt(nodes', q, d2, n2, x);
    }
  }

  /** The driver's rename leaves a tree exactly when the new directory is not below what
      moves; otherwise no assignment of paths makes the result one. */
  lemma TreeExactlyWithoutPrefix(nodes: Nodes, nodes': Nodes, paths: map<INode, Path>,
                                 d1: INode, n1: Name, x: INode, d2: INode, n2: Name, gone: set<INode>)
    requires Movable(nodes, paths, d1, n1, x, d2, n2) && Moved(nodes, nodes', d1, n1, x, d2, n2, gone)
    ensures (exists q :: Tree(nodes', q)) <==> !(paths[x] <= paths[d2])
  {
    if paths[x] <= paths[d2] {
      forall q ensures !Tree(nodes', q) { NoTreeBelowItself(nodes, nodes', paths, q, d1, n1, x, d2, n2, gone); }
    } else {
      MoveKeeps(nodes, nodes', paths, d1, n1, x, d2, n2, gone);
    }
    hide Tree, Moved, Movable;
  }
}
