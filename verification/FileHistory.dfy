/** Whole histories of file-system commands: every answer is the one its command has in the
    state it met, every state follows from the one before by that command's own effect, and in
    the end the file system is a tree whose inode numbers were never used twice. */
module FileHistory {
  import opened Paths
  import opened RamTree
  import opened RamDirectory
  import opened RamDriver
  import opened FileManager

  datatype Command =
    | DoMkdir(cwd: string, path: string)
    | DoCreat(cwd: string, path: string)
    | DoOpen(cwd: string, path: string)
    | DoUnlink(cwd: string, path: string)
    | DoRename(cwd: string, from: string, to: string)
    | DoClose(inode: INode)

  /** The reply to a command that yields an inode, or to one that does not. */
  datatype Answer = WithINode(inode: Reply<INode>) | Plain(done: Reply<()>)

  /** The driver's state between two commands. */
  datatype Snapshot = Snapshot(
    nodes: Nodes, inodes: set<INode>, next: nat, open: multiset<INode>, paths: map<INode, Path>)

  ghost function Now(fs: RamFs): Snapshot
    reads fs
  {
    Snapshot(fs.nodes, fs.inodes, fs.nextInode, fs.open, fs.paths)
  }

  /** The entries are a tree, every node is in the table, and what is under no path is held open. */
  ghost predicate InOrder(s: Snapshot) { Sound(s.nodes, s.inodes, s.next, s.open, s.paths) }

  function Handle(r: Reply<INode>): multiset<INode> {
    if r.Reply? && r.result.Ok? then multiset{r.result.value} else multiset{}
  }

  /** The answer to a command, and the state behind it, from the state in front of it. */
  ghost predicate Effect(mounts: seq<string>, c: Command, a: Answer, s: Snapshot, t: Snapshot) {
    match c
    case DoMkdir(cwd, path) => a.WithINode? && MkdirEffect(mounts, Canon(cwd, path), a.inode, s, t)
    case DoCreat(cwd, path) => a.WithINode? && CreatEffect(mounts, Canon(cwd, path), a.inode, s, t)
    case DoOpen(cwd, path) => a.WithINode? && OpenEffect(mounts, Canon(cwd, path), a.inode, s, t)
    case DoUnlink(cwd, path) => a.Plain? && UnlinkEffect(mounts, Canon(cwd, path), a.done, s, t)
    case DoRename(cwd, from, to) => a.Plain? && RenameEffectOf(mounts, Canon(cwd, from), Canon(cwd, to), a.done, s, t)
    case DoClose(i) => CloseEffect(i, s, t)
  }

  ghost predicate MkdirEffect(mounts: seq<string>, p: Path, r: Reply<INode>, s: Snapshot, t: Snapshot) {
    && (r.Reply? && r.result.Ok? <==> MayCreate(mounts, s.nodes, s.inodes, p))
    && (!(r.Reply? && r.result.Ok?) ==> NotCreated(mounts, s.nodes, s.inodes, s.paths, p, r))
    && t.open == s.open
    && t.inodes == s.inodes + Made(r) && Created(p, Dir([]), r, s.nodes, s.paths, s.next, t.nodes, t.paths, t.next)
  }

  ghost predicate CreatEffect(mounts: seq<string>, p: Path, r: Reply<INode>, s: Snapshot, t: Snapshot) {
    && (r.Reply? && r.result.Ok? <==> MayCreate(mounts, s.nodes, s.inodes, p))
    && (!(r.Reply? && r.result.Ok?) ==> NotCreated(mounts, s.nodes, s.inodes, s.paths, p, r))
    && t.open == s.open + Handle(r)
    && t.inodes == s.inodes + Made(r) && Created(p, File([]), r, s.nodes, s.paths, s.next, t.nodes, t.paths, t.next)
  }

  ghost predicate OpenEffect(mounts: seq<string>, p: Path, r: Reply<INode>, s: Snapshot, t: Snapshot) {
    && Opened(mounts, p, r, s.nodes, s.paths) && t.open == s.open + Handle(r)
    && t.nodes == s.nodes && t.inodes == s.inodes && t.paths == s.paths && t.next == s.next
  }

  ghost predicate UnlinkEffect(mounts: seq<string>, p: Path, r: Reply<()>, s: Snapshot, t: Snapshot) {
    && (r.Reply? && r.result.Ok? <==> MayRemove(mounts, s.nodes, p))
    && (!(r.Reply? && r.result.Ok?) ==> NotRemoved(mounts, s.nodes, s.paths, p, r))
    && t.open == s.open && t.next == s.next
    && (t.inodes == if r.Reply? && r.result.Ok? then s.inodes - Unheld(s.paths, s.open, p) else s.inodes)
    && Removed(p, r, s.nodes, s.paths, t.nodes, t.paths)
  }

  ghost predicate RenameEffectOf(mounts: seq<string>, p: Path, n: Path, r: Reply<()>, s: Snapshot, t: Snapshot) {
    && RenamedOrNot(mounts, p, n, r, s.nodes, s.paths, t.nodes, t.paths)
    && t.inodes == s.inodes && t.open == s.open && t.next == s.next
  }

  /** A handle that does not exist is not closed. */
  ghost predicate CloseEffect(i: INode, s: Snapshot, t: Snapshot) {
    && t.inodes == s.inodes && t.paths == s.paths && t.next == s.next && t.open == s.open - multiset{i}
    && t.nodes == if i in s.open then Release(s.nodes, i, i in t.open || i in s.paths) else s.nodes
  }

  predicate Creates(c: Command, a: Answer) {
    (c.DoMkdir? || c.DoCreat?) && a.WithINode? && a.inode.Reply? && a.inode.result.Ok?
  }

  /** The inodes that the mkdir and creat commands were answered with. */
  function Creations(commands: seq<Command>, answers: seq<Answer>): seq<INode>
    requires |answers| == |commands|
  {
    if commands == [] then []
    else
      var n := |commands| - 1;
      Creations(commands[..n], answers[..n])
      + if Creates(commands[n], answers[n]) then [answers[n].inode.result.value] else []
  }

  /** Every state is in order, and follows from the one before by its command, with its answer. */
  ghost predicate Follows(mounts: seq<string>, commands: seq<Command>, answers: seq<Answer>, trail: seq<Snapshot>) {
    && |answers| == |commands| && |trail| == |commands| + 1
    && (forall k :: 0 <= k <= |commands| ==> InOrder(trail[k]))
    && (forall k :: 0 <= k < |commands| ==> Follow(mounts, commands, answers, trail, k))
  }

  ghost predicate Follow(mounts: seq<string>, commands: seq<Command>, answers: seq<Answer>, trail: seq<Snapshot>,
                         k: nat)
    requires k < |commands| == |answers| && |trail| == |commands| + 1
  {
    Effect(mounts, commands[k], answers[k], trail[k], trail[k + 1])
  }

  lemma FollowsNext(mounts: seq<string>, commands: seq<Command>, answers: seq<Answer>, trail: seq<Snapshot>, k: nat,
                    a: Answer, t: Snapshot)
    requires k < |commands| && Follows(mounts, commands[..k], answers, trail)
    requires Effect(mounts, commands[k], a, trail[k], t) && InOrder(t)
    ensures Follows(mounts, commands[..k + 1], answers + [a], trail + [t])
  {
    hide Effect, InOrder;
    var commands', answers', trail' := commands[..k + 1], answers + [a], trail + [t];
    forall j | 0 <= j < k + 1 ensures Follow(mounts, commands', answers', trail', j) {
      if j < k { assert Follow(mounts, commands[..k], answers, trail, j); }
    }
  }

  /** The counter never goes down, and what a command creates is new to every state before. */
  lemma EffectCounts(mounts: seq<string>, c: Command, a: Answer, s: Snapshot, t: Snapshot)
    requires Effect(mounts, c, a, s, t)
    ensures if Creates(c, a) then s.next < a.inode.result.value == t.next else s.next == t.next
  {
    hide MayCreate, NotCreated, NotRemoved, RenamedOrNot, Removed, Opened, Canon;
  }

  /** Ever larger numbers above `low` and up to `high`. */
  predicate Rising(made: seq<INode>, low: nat, high: nat) {
    && low <= high && (forall i :: 0 <= i < |made| ==> low < made[i] <= high)
    && (forall i, j :: 0 <= i < j < |made| ==> made[i] < made[j])
  }

  /** In every such history the created inodes are numbered upwards, past everything that was
      there at the start. */
  lemma {:induction false} CreationsRise(mounts: seq<string>, commands: seq<Command>, answers: seq<Answer>,
                                         trail: seq<Snapshot>)
    requires Follows(mounts, commands, answers, trail)
    ensures Rising(Creations(commands, answers), trail[0].next, trail[|commands|].next)
  {
    hide Effect, InOrder;
    if commands != [] {
      var n := |commands| - 1;
      FollowsLess(mounts, commands, answers, trail);
      CreationsRise(mounts, commands[..n], answers[..n], trail[..n + 1]);
      assert Follow(mounts, commands, answers, trail, n);
      hide Follows, Rising;
      EffectCounts(mounts, commands[n], answers[n], trail[n], trail[n + 1]);
      if Creates(commands[n], answers[n]) {
        RisesOn(Creations(commands[..n], answers[..n]), trail[0].next, trail[n].next, trail[n + 1].next);
      }
    }
  }

  lemma RisesOn(made: seq<INode>, low: nat, mid: nat, high: nat)
    requires Rising(made, low, mid) && mid < high
    ensures Rising(made + [high], low, high)
  {
  }

  lemma FollowsLess(mounts: seq<string>, commands: seq<Command>, answers: seq<Answer>, trail: seq<Snapshot>)
    requires Follows(mounts, commands, answers, trail) && commands != []
    ensures var n := |commands| - 1; Follows(mounts, commands[..n], answers[..n], trail[..n + 1])
  {
    hide Effect, InOrder;
    var n := |commands| - 1;
    var commands', answers', trail' := commands[..n], answers[..n], trail[..n + 1];
    forall j | 0 <= j < n ensures Follow(mounts, commands', answers', trail', j) {
      assert Follow(mounts, commands, answers, trail, j);
    }
  }

  /** Applies the commands in order, with an answer to each. */
  method Replay(manager: FileManager, commands: seq<Command>)
    returns (answers: seq<Answer>, ghost trail: seq<Snapshot>)
    requires manager.Valid()
    modifies manager.fs
    ensures manager.Valid() && Follows(manager.mounts, commands, answers, trail)
    ensures trail[0] == old(Now(manager.fs)) && trail[|commands|] == Now(manager.fs)
    ensures Rising(Creations(commands, answers), old(manager.fs.nextInode), manager.fs.nextInode)
    ensures IsTree(manager.fs.nodes, manager.fs.paths)
  {
    hide Sound, Effect, Canon, Tree, Creations, IsTree;
    answers, trail := [], [Now(manager.fs)];
    for k := 0 to |commands|
      invariant manager.Valid() && Follows(manager.mounts, commands[..k], answers, trail)
      invariant trail[0] == old(Now(manager.fs)) && trail[k] == Now(manager.fs)
    {
      var a := Apply(manager, commands[k]);
      FollowsNext(manager.mounts, commands, answers, trail, k, a, Now(manager.fs));
      answers, trail := answers + [a], trail + [Now(manager.fs)];
    }
    assert commands[..|commands|] == commands;
    CreationsRise(manager.mounts, commands, answers, trail);
    SoundFacts(manager.fs.nodes, manager.fs.inodes, manager.fs.nextInode, manager.fs.open, manager.fs.paths);
    TreeIs(manager.fs.nodes, manager.fs.paths);
  }

  /** Everything is reached by its path, every inode but the root is under exactly one entry, and
      nothing contains itself. */
  ghost predicate IsTree(nodes: Nodes, paths: map<INode, Path>) {
    && (forall i :: i in paths ==> Walk(nodes, ROOT, paths[i]) == Ok(i))
    && (forall d, n, e, o, i :: Holds(nodes, d, n, i) && Holds(nodes, e, o, i) ==> d == e && n == o)
    && (forall i :: i in paths && i != ROOT ==> HasParent(nodes, i))
    && (forall d, p :: d in paths && p != [] ==> Walk(nodes, d, p) != Ok(d))
  }

  lemma TreeIs(nodes: Nodes, paths: map<INode, Path>)
    requires Tree(nodes, paths)
    ensures IsTree(nodes, paths)
  {
    hide Tree, Walk, Holds, HasParent;
    TreeMeans(nodes, paths);
  }

  method Apply(manager: FileManager, c: Command) returns (a: Answer)
    requires manager.Valid()
    modifies manager.fs
    ensures manager.Valid() && Effect(manager.mounts, c, a, old(Now(manager.fs)), Now(manager.fs))
  {
    hide Sound, Canon, MayCreate, MayRemove, NotCreated, NotRemoved, Created, Removed, Opened, RenamedOrNot;
    match c {
      case DoMkdir(cwd, path) =>
        var r := manager.Mkdir(cwd, path);
        return WithINode(r);
      case DoCreat(cwd, path) =>
        var r := manager.Creat(cwd, path);
        return WithINode(r);
      case DoOpen(cwd, path) =>
        var r := manager.Open(cwd, path);
        return WithINode(r);
      case DoUnlink(cwd, path) =>
        var r := manager.Unlink(cwd, path);
        return Plain(r);
      case DoRename(cwd, from, to) =>
        var r := manager.Rename(cwd, from, to);
        return Plain(r);
      case DoClose(i) =>
        if i in manager.fs.open { manager.fs.Close(i); }
        return Plain(Reply(Ok(())));
    }
  }
}
