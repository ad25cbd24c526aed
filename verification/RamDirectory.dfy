/** Directory vectors of the RAM file system and what each rewrite of them does to the tree.
    Open handles keep an entity alive after its last entry. */
module RamDirectory {
  import opened Paths
  import opened RamTree

  const INODE_MAX: nat := 32767

  // ---- directory vectors ----

  function IndexOf(es: seq<Entry>, name: Name): (k: nat)
    ensures k <= |es| && (k < |es| ==> es[k].name == name)
    ensures forall j :: 0 <= j < k ==> es[j].name != name
  {
    if es == [] then 0 else if es[0].name == name then 0 else 1 + IndexOf(es[1..], name)
  }

  function RemoveAt(es: seq<Entry>, k: nat): seq<Entry>
    requires k < |es|
  {
    es[..k] + es[k + 1..]
  }

  /** `force_rename`: rename in place, then remove the entry that had the name before. */
  function ForceRename(es: seq<Entry>, oldName: Name, newName: Name): seq<Entry>
    requires IndexOf(es, oldName) < |es|
  {
    var v, k := IndexOf(es, newName), IndexOf(es, oldName);
    var renamed := es[k := Entry(newName, es[k].inode)];
    if v < |es| then RemoveAt(renamed, v) else renamed
  }

  function AppendOrReplace(es: seq<Entry>, name: Name, i: INode): seq<Entry> {
    var v := IndexOf(es, name);
    if v < |es| then es[v := Entry(name, i)] else es + [Entry(name, i)]
  }

  lemma RemoveIndex(es: seq<Entry>, k: nat)
    requires k < |es|
    ensures var es' := RemoveAt(es, k); |es'| == |es| - 1 && forall j :: 0 <= j < |es'| ==> es'[j] == es[Skip(j, k)]
  {
  }

  function Skip(j: nat, k: nat): nat { if j < k then j else j + 1 }

  function Unskip(j: nat, k: nat): nat
    requires j != k
  {
    if j < k then j else j - 1
  }

  lemma RemoveMeans(es: seq<Entry>, name: Name)
    requires Distinct(es) && IndexOf(es, name) < |es|
    ensures var es' := RemoveAt(es, IndexOf(es, name));
      Distinct(es') && forall e :: e in es' <==> e in es && e.name != name
  {
    var k := IndexOf(es, name);
    var es' := RemoveAt(es, k);
    RemoveIndex(es, k);
    hide RemoveAt, IndexOf;
    forall i, j | 0 <= i < j < |es'| ensures es'[i].name != es'[j].name {
      assert es'[i] == es[Skip(i, k)] && es'[j] == es[Skip(j, k)];
    }
    forall e ensures e in es' <==> e in es && e.name != name { RemoveHolds(es, name, e); }
  }

  lemma RemoveHolds(es: seq<Entry>, name: Name, e: Entry)
    requires Distinct(es) && IndexOf(es, name) < |es|
    ensures e in RemoveAt(es, IndexOf(es, name)) <==> e in es && e.name != name
  {
    var k := IndexOf(es, name);
    var es' := RemoveAt(es, k);
    RemoveIndex(es, k);
    hide RemoveAt, IndexOf;
    if e in es' {
      var j :| 0 <= j < |es'| && es'[j] == e;
      assert es[Skip(j, k)] == e;
    }
    if e in es && e.name != name {
      var j :| 0 <= j < |es| && es[j] == e;
      assert es'[Unskip(j, k)] == e;
    }
  }

  lemma ReplaceMeans(es: seq<Entry>, name: Name, i: INode)
    requires Distinct(es)
    ensures var es' := AppendOrReplace(es, name, i);
      Distinct(es') && forall e :: e in es' <==> (e in es && e.name != name) || e == Entry(name, i)
  {
    var v, es' := IndexOf(es, name), AppendOrReplace(es, name, i);
    assert forall j :: 0 <= j < |es'| ==> es'[j] == if j == v then Entry(name, i) else es[j];
    forall e | (e in es && e.name != name) || e == Entry(name, i) ensures e in es' {
      if e == Entry(name, i) { assert es'[v] == e; }
      else { var j :| 0 <= j < |es| && es[j] == e; assert es'[j] == e; }
    }
    forall e | e in es' ensures (e in es && e.name != name) || e == Entry(name, i) {
      var j :| 0 <= j < |es'| && es'[j] == e;
    }
  }

  lemma RenameIndex(es: seq<Entry>, oldName: Name, newName: Name)
    requires IndexOf(es, oldName) < |es|
    ensures var v, k, es' := IndexOf(es, newName), IndexOf(es, oldName), ForceRename(es, oldName, newName);
      && |es'| == |es| - (if v < |es| then 1 else 0)
      && forall j :: 0 <= j < |es'| ==>
        es'[j] == if Skip(j, v) == k then Entry(newName, es[k].inode) else es[Skip(j, v)]
  {
    var v, k := IndexOf(es, newName), IndexOf(es, oldName);
    if v < |es| { RemoveIndex(es[k := Entry(newName, es[k].inode)], v); }
    hide RemoveAt, IndexOf;
  }

  lemma RenameDistinct(es: seq<Entry>, oldName: Name, newName: Name)
    requires Distinct(es) && IndexOf(es, oldName) < |es| && oldName != newName
    ensures Distinct(ForceRename(es, oldName, newName))
  {
    var v, es' := IndexOf(es, newName), ForceRename(es, oldName, newName);
    RenameIndex(es, oldName, newName);
    hide ForceRename, IndexOf;
    forall i, j | 0 <= i < j < |es'| ensures es'[i].name != es'[j].name {
      assert Skip(i, v) < Skip(j, v) < |es|;
    }
  }

  lemma RenameMeans(es: seq<Entry>, oldName: Name, newName: Name)
    requires Distinct(es) && IndexOf(es, oldName) < |es| && oldName != newName
    ensures var es', x := ForceRename(es, oldName, newName), es[IndexOf(es, oldName)].inode;
      && Distinct(es')
      && forall e :: e in es' <==> (e in es && e.name != oldName && e.name != newName) || e == Entry(newName, x)
  {
    var v, k := IndexOf(es, newName), IndexOf(es, oldName);
    var x, es' := es[k].inode, ForceRename(es, oldName, newName);
    RenameDistinct(es, oldName, newName);
    RenameIndex(es, oldName, newName);
    hide ForceRename, IndexOf;
    forall e ensures e in es' <==> (e in es && e.name != oldName && e.name != newName) || e == Entry(newName, x) {
      if e in es' { RenameHolds(es, oldName, newName, e); }
      if e == Entry(newName, x) {
        assert es'[Unskip(k, v)] == e;
      } else if e in es && e.name != oldName && e.name != newName {
        var j :| 0 <= j < |es| && es[j] == e;
        assert es'[Unskip(j, v)] == e;
      }
    }
  }

  lemma RenameHolds(es: seq<Entry>, oldName: Name, newName: Name, e: Entry)
    requires Distinct(es) && IndexOf(es, oldName) < |es| && oldName != newName && e in ForceRename(es, oldName, newName)
    ensures (e in es && e.name != oldName && e.name != newName) || e == Entry(newName, es[IndexOf(es, oldName)].inode)
  {
    var v, es' := IndexOf(es, newName), ForceRename(es, oldName, newName);
    RenameIndex(es, oldName, newName);
    hide ForceRename, IndexOf;
    var j :| 0 <= j < |es'| && es'[j] == e;
    assert es[Skip(j, v)] in es;
  }

  // ---- the effect of the directory operations on the nodes ----

  /** The entity goes with its last reference. */
  function Release(nodes: Nodes, i: INode, held: bool): Nodes { if held then nodes else nodes - {i} }

  /** Directories are never held open. */
  predicate MayHold(nodes: Nodes, i: INode, held: bool) { i in nodes && (held ==> nodes[i].File?) }

  function WithEntries(nodes: Nodes, d: INode, es: seq<Entry>): Nodes { nodes[d := Dir(es)] }

  /** Giving `d` new entries. */
  lemma SetEntries(nodes: Nodes, d: INode, es: seq<Entry>)
    requires IsDir(nodes, d)
    ensures var nodes' := WithEntries(nodes, d, es);
      && nodes'.Keys == nodes.Keys && (forall e :: IsDir(nodes', e) <==> IsDir(nodes, e))
      && (forall e :: e in nodes && e != d ==> nodes'[e] == nodes[e])
      && (forall e, n, i :: Holds(nodes', e, n, i) <==> if e == d then Entry(n, i) in es else Holds(nodes, e, n, i))
  {
  }

  /** Releasing an entity that holds nothing. */
  lemma Releases(nodes: Nodes, x: INode, held: bool)
    requires MayHold(nodes, x, held) && Leaf(nodes[x])
    ensures var nodes' := Release(nodes, x, held);
      && nodes.Keys - {x} <= nodes'.Keys <= nodes.Keys && (forall e :: IsDir(nodes', e) <==> IsDir(nodes, e) && e != x)
      && (forall e :: e in nodes' ==> nodes'[e] == nodes[e])
      && (forall e, n, i :: Holds(nodes', e, n, i) <==> e != x && Holds(nodes, e, n, i))
  {
  }

  ghost predicate AllDistinct(nodes: Nodes) { forall d :: IsDir(nodes, d) ==> Distinct(nodes[d].entries) }

  lemma UnlinkShape(nodes: Nodes, paths: map<INode, Path>, d: INode, name: Name, x: INode, held: bool)
    requires Tree(nodes, paths) && Holds(nodes, d, name, x) && Leaf(nodes[x]) && MayHold(nodes, x, held)
    ensures IndexOf(nodes[d].entries, name) < |nodes[d].entries|
    ensures var es := nodes[d].entries;
      Unlinked(nodes, Release(WithEntries(nodes, d, RemoveAt(es, IndexOf(es, name))), x, held), d, name, x)
  {
    var es := nodes[d].entries;
    HeldIndex(es, name, x);
    RootedDirs(nodes, paths);
    HeldApart(nodes, paths, d, name, x);
    hide Tree, Leaf, MayHold, Unlinked;
    RemoveMeans(es, name);
    UnlinkCore(nodes, d, name, x, RemoveAt(es, IndexOf(es, name)), held);
  }

  lemma UnlinkCore(nodes: Nodes, d: INode, name: Name, x: INode, es: seq<Entry>, held: bool)
    requires IsDir(nodes, d) && d != x && MayHold(nodes, x, held) && Leaf(nodes[x]) && AllDistinct(nodes)
    requires Distinct(es)
    requires forall e :: e in es <==> e in nodes[d].entries && e.name != name
    ensures Unlinked(nodes, Release(WithEntries(nodes, d, es), x, held), d, name, x)
  {
    hide Distinct, WithEntries, Release;
    SetEntries(nodes, d, es);
    EntriesSet(nodes, d, es);
    Releases(WithEntries(nodes, d, es), x, held);
  }

  lemma EntriesSet(nodes: Nodes, d: INode, es: seq<Entry>)
    ensures d in WithEntries(nodes, d, es) && WithEntries(nodes, d, es)[d] == Dir(es)
  {
  }

  lemma HeldIndex(es: seq<Entry>, name: Name, x: INode)
    requires Entry(name, x) in es
    ensures IndexOf(es, name) < |es|
    ensures Distinct(es) ==> es[IndexOf(es, name)] == Entry(name, x)
  {
  }

  lemma HeldApart(nodes: Nodes, paths: map<INode, Path>, d: INode, name: Name, x: INode)
    requires Tree(nodes, paths) && Holds(nodes, d, name, x)
    ensures d != x && d in nodes && x in nodes && Distinct(nodes[d].entries) && d in paths && x in paths
  {
    PlacedAt(nodes, paths, d, name, x);
    assert |paths[d] + [name]| > |paths[d]|;
  }

  lemma RootedDirs(nodes: Nodes, paths: map<INode, Path>)
    requires Tree(nodes, paths)
    ensures AllDistinct(nodes)
  {
  }

  /** The entries after a rename, before the replaced entity is released. */
  ghost predicate Reentered(nodes: Nodes, mid: Nodes, d1: INode, n1: Name, x: INode, d2: INode, n2: Name) {
    && mid.Keys == nodes.Keys && (forall e :: IsDir(mid, e) <==> IsDir(nodes, e)) && AllDistinct(mid)
    && (forall e :: e in nodes && e != d1 && e != d2 ==> mid[e] == nodes[e])
    && (forall d, n, i :: Holds(mid, d, n, i) <==>
          || (Holds(nodes, d, n, i) && !(d == d1 && n == n1) && !(d == d2 && n == n2))
          || (d == d2 && n == n2 && i == x))
  }

  lemma ReenterSame(nodes: Nodes, d: INode, n1: Name, x: INode, n2: Name)
    requires AllDistinct(nodes) && Holds(nodes, d, n1, x) && n1 != n2
    ensures IndexOf(nodes[d].entries, n1) < |nodes[d].entries|
    ensures Reentered(nodes, WithEntries(nodes, d, ForceRename(nodes[d].entries, n1, n2)), d, n1, x, d, n2)
  {
    hide ForceRename, WithEntries, Distinct, IndexOf;
    var es := nodes[d].entries;
    HeldIndex(es, n1, x);
    RenameMeans(es, n1, n2);
    SetEntries(nodes, d, ForceRename(es, n1, n2));
    EntriesSet(nodes, d, ForceRename(es, n1, n2));
  }

  lemma ReenterOther(nodes: Nodes, d1: INode, n1: Name, x: INode, d2: INode, n2: Name)
    requires AllDistinct(nodes) && Holds(nodes, d1, n1, x) && IsDir(nodes, d2) && d1 != d2
    ensures IndexOf(nodes[d1].entries, n1) < |nodes[d1].entries|
    ensures Reentered(nodes,
      WithEntries(WithEntries(nodes, d1, RemoveAt(nodes[d1].entries, IndexOf(nodes[d1].entries, n1))),
                  d2, AppendOrReplace(nodes[d2].entries, n2, x)),
      d1, n1, x, d2, n2)
  {
    HeldIndex(nodes[d1].entries, n1, x);
    var es1, es2 := RemoveAt(nodes[d1].entries, IndexOf(nodes[d1].entries, n1)),
      AppendOrReplace(nodes[d2].entries, n2, x);
    RemoveMeans(nodes[d1].entries, n1);
    ReplaceMeans(nodes[d2].entries, n2, x);
    hide RemoveAt, IndexOf, AppendOrReplace, Distinct;
    ReenterCore(nodes, d1, n1, x, d2, n2, es1, es2);
  }

  lemma ReenterCore(nodes: Nodes, d1: INode, n1: Name, x: INode, d2: INode, n2: Name, es1: seq<Entry>, es2: seq<Entry>)
    requires AllDistinct(nodes) && IsDir(nodes, d1) && IsDir(nodes, d2) && d1 != d2 && Distinct(es1) && Distinct(es2)
    requires forall e :: e in es1 <==> e in nodes[d1].entries && e.name != n1
    requires forall e :: e in es2 <==> (e in nodes[d2].entries && e.name != n2) || e == Entry(n2, x)
    ensures Reentered(nodes, WithEntries(WithEntries(nodes, d1, es1), d2, es2), d1, n1, x, d2, n2)
  {
    hide WithEntries, Distinct;
    var mid := WithEntries(nodes, d1, es1);
    SetEntries(nodes, d1, es1);
    EntriesSet(nodes, d1, es1);
    SetEntries(mid, d2, es2);
    EntriesSet(mid, d2, es2);
  }

  /** What the new name held before. */
  function Victims(nodes: Nodes, d: INode, name: Name): set<INode> {
    match Lookup(nodes, d, name)
    case Ok(v) => {v}
    case Err(_) => {}
  }

  lemma VictimsAre(nodes: Nodes, paths: map<INode, Path>, d: INode, name: Name)
    requires Tree(nodes, paths) && IsDir(nodes, d) && d in paths
    ensures forall v :: v in Victims(nodes, d, name) <==> Holds(nodes, d, name, v)
  {
    FindExact(nodes, paths, d, name);
    hide Tree, Lookup, Holds;
  }

  lemma MoveShape(nodes: Nodes, mid: Nodes, paths: map<INode, Path>,
                  d1: INode, n1: Name, x: INode, d2: INode, n2: Name, v: INode, held: bool)
    requires MayMove(nodes, paths, d1, n1, x, d2, n2) && Reentered(nodes, mid, d1, n1, x, d2, n2)
    requires Victims(nodes, d2, n2) == {v} && Holds(nodes, d2, n2, v) && MayHold(nodes, v, held)
    ensures Moved(nodes, Release(mid, v, held), d1, n1, x, d2, n2, {v})
  {
    HeldApart(nodes, paths, d2, n2, v);
    VictimsAre(nodes, paths, d2, n2);
    assert Leaf(nodes[v]) && v != d1 && x != v;
    hide Tree, MayMove, Reentered, Moved, MayHold, Victims;
    MoveCore(nodes, mid, d1, n1, x, d2, n2, v, held);
  }

  lemma MoveCore(nodes: Nodes, mid: Nodes, d1: INode, n1: Name, x: INode, d2: INode, n2: Name, v: INode, held: bool)
    requires Reentered(nodes, mid, d1, n1, x, d2, n2) && MayHold(nodes, v, held) && Leaf(nodes[v])
    requires v != d1 && v != d2 && forall w :: w in {v} <==> Holds(nodes, d2, n2, w)
    ensures Moved(nodes, Release(mid, v, held), d1, n1, x, d2, n2, {v})
  {
    hide Release, Distinct;
    Releases(mid, v, held);
  }

  lemma MoveShapeNone(nodes: Nodes, mid: Nodes, paths: map<INode, Path>, d1: INode, n1: Name, x: INode, d2: INode,
                      n2: Name)
    requires MayMove(nodes, paths, d1, n1, x, d2, n2) && Reentered(nodes, mid, d1, n1, x, d2, n2)
    requires Victims(nodes, d2, n2) == {}
    ensures Moved(nodes, mid, d1, n1, x, d2, n2, {})
  {
    RootedDirs(nodes, paths);
    assert d2 in paths;
    VictimsAre(nodes, paths, d2, n2);
    hide Tree, Distinct;
  }
}
