/** Staged restore of a directory snapshot into an absent destination. */
module DirectoryStage {
  import opened Common
  import Codec = DirectoryCodec
  import Ordering
  import Paths
  import Trees

  type Path = Paths.Path

  datatype FileData = FileData(mode: nat, content: Bytes)

  type Node = Trees.Node<FileData, Bytes>
  type Tree = Trees.Tree<FileData, Bytes>
  type Item = Trees.Placed<FileData, Bytes>

  /** The permission bits a restored file has: at least owner-read, and no file-type bits. */
  function RestoredMode(mode: nat): (bits: nat) {
    Max(mode, 0x100) % 0x1000
  }

  /** What restoring a stored entry puts at its normalized path. */
  function ItemOf(e: Codec.Entry): (x: Item)
    requires Paths.Parse(e.path).Ok?
  {
    Trees.Placed(Paths.Parse(e.path).value,
                 if e.kind.File? then Trees.File(FileData(RestoredMode(e.mode), e.content))
                 else Trees.Link(e.content))
  }

  function ItemsOf(v: Codec.Version, es: seq<Codec.Entry>): (items: seq<Item>)
    requires Codec.AllStorable(v, es)
  {
    seq(|es|, i requires 0 <= i < |es| => assert es[i] in es; ItemOf(es[i]))
  }

  lemma ItemsAreLeaves(v: Codec.Version, es: seq<Codec.Entry>)
    requires Codec.AllStorable(v, es)
    ensures AllLeaves(ItemsOf(v, es))
  {
    forall i | 0 <= i < |es| ensures IsLeaf(ItemsOf(v, es)[i]) {
      assert es[i] in es;
    }
  }

  /** The operating system takes neither a NUL in a name or target, nor an empty target. */
  predicate Creatable(x: Item) {
    && (forall i :: 0 <= i < |x.path| ==> 0 !in x.path[i])
    && (x.node.Link? ==> x.node.target != [] && 0 !in x.node.target)
  }

  predicate IsLeaf(x: Item) {
    x.path != [] && !x.node.Dir?
  }

  predicate AllLeaves(items: seq<Item>) {
    forall x :: x in items ==> IsLeaf(x)
  }

  predicate ConflictFree(items: seq<Item>) {
    forall i, j :: 0 <= i < j < |items| ==> !Paths.Clash(items[i].path, items[j].path)
  }

  // ----- The private tree --------------------------------------------------------

  /** `restore_entry`: `prepare_parent`, then an exclusive create. */
  function StageOne(tree: Tree, x: Item): (r: Result<Tree>)
    requires IsLeaf(x)
  {
    var up := Trees.Parent(x.path);
    if !Creatable(x) || !Trees.Mountable(tree, up) then Err
    else if x.path in Trees.MakeDirs(tree, up) then Err
    else Ok(Trees.Put(tree, x))
  }

  function StageAll(items: seq<Item>): (r: Result<Tree>)
    requires AllLeaves(items)
  {
    if items == [] then Ok(Trees.EmptyTree())
    else
      var n := |items| - 1;
      assert items == items[..n] + [items[n]];
      match StageAll(items[..n])
      case Err => Err
      case Ok(tree) => StageOne(tree, items[n])
  }

  /** `x` clashes with no item of `done`. */
  predicate Fits(done: seq<Item>, x: Item) {
    forall y :: y in done ==> !Paths.Clash(y.path, x.path)
  }

  lemma {:induction false} DirAtIff(done: seq<Item>, p: Path)
    requires AllLeaves(done)
    ensures Trees.NodeAt(done, p).Dir? <==> forall y :: y in done ==> y.path != p
  {
    if done == [] {
    } else {
      var n := |done| - 1;
      assert done == done[..n] + [done[n]];
      assert done[n] in done && IsLeaf(done[n]);
      DirAtIff(done[..n], p);
      if Trees.NodeAt(done, p).Dir? {
        forall y | y in done ensures y.path != p {
          assert y in done[..n] || y == done[n];
        }
      }
    }
  }

  /** No item is at a position that a directory could be mounted on. */
  lemma ItemNotAbove(tree: Tree, done: seq<Item>, up: Path, y: Item)
    requires AllLeaves(done) && Trees.Shows(tree, done) && Trees.Mountable(tree, up) && y in done
    ensures !(y.path <= up)
  {
    if y.path <= up {
      var p := up[..|y.path|];
      assert p == y.path;
      Trees.CoversIff(done, p);
      assert Trees.LeadsTo(p, y.path);
      DirAtIff(done, p);
      assert false;
    }
  }

  lemma FitsMountable(tree: Tree, done: seq<Item>, x: Item)
    requires AllLeaves(done) && IsLeaf(x) && Trees.Shows(tree, done) && Fits(done, x)
    ensures Trees.Mountable(tree, Trees.Parent(x.path))
  {
    var up := Trees.Parent(x.path);
    forall i | 0 <= i <= |up| ensures up[..i] in tree ==> tree[up[..i]].Dir? {
      DirAtIff(done, up[..i]);
      assert up[..i] <= x.path;
    }
  }

  /** An entry can be staged exactly when it clashes with none staged before it. */
  lemma StageOneIff(tree: Tree, done: seq<Item>, x: Item)
    requires AllLeaves(done) && IsLeaf(x) && Trees.WellFormed(tree) && Trees.Shows(tree, done)
    ensures StageOne(tree, x).Ok? <==> Creatable(x) && Fits(done, x)
  {
    var up := Trees.Parent(x.path);
    if Fits(done, x) {
      FitsMountable(tree, done, x);
    }
    if Trees.Mountable(tree, up) {
      Trees.MakeDirsAdds(tree, up);
      Trees.CoversIff(done, x.path);
      assert x.path in Trees.MakeDirs(tree, up) <==> Trees.Covers(done, x.path);
      forall y | y in done ensures Paths.Clash(y.path, x.path) <==> Trees.LeadsTo(x.path, y.path) {
        ItemNotAbove(tree, done, up, y);
        Trees.LeadsToStep(y.path, x.path);
      }
    }
  }

  lemma ConflictFreeStep(items: seq<Item>)
    requires items != []
    ensures ConflictFree(items) <==>
            ConflictFree(items[..|items| - 1]) && Fits(items[..|items| - 1], items[|items| - 1])
  {
    var n := |items| - 1;
    var done, x := items[..n], items[n];
    if ConflictFree(items) {
      forall y | y in done ensures !Paths.Clash(y.path, x.path) {
        var i :| 0 <= i < n && done[i] == y;
        assert !Paths.Clash(items[i].path, items[n].path);
      }
    }
    if ConflictFree(done) && Fits(done, x) {
      forall i, j | 0 <= i < j < |items| ensures !Paths.Clash(items[i].path, items[j].path) {
        assert items[i] == done[i];
        if j < n {
          assert items[j] == done[j];
        }
      }
    }
  }

  /** Staging succeeds exactly when no path equals or is above another, and every name can be created;
      the private tree then holds exactly the entries and the directories above them. */
  lemma {:induction false} StageAllIff(items: seq<Item>)
    requires AllLeaves(items)
    ensures StageAll(items).Ok? <==> ConflictFree(items) && forall x :: x in items ==> Creatable(x)
    ensures StageAll(items).Ok? ==>
              Trees.WellFormed(StageAll(items).value) && Trees.Shows(StageAll(items).value, items)
  {
    if items == [] {
    } else {
      var n := |items| - 1;
      var done, x := items[..n], items[n];
      assert items == done + [x];
      StageAllIff(done);
      ConflictFreeStep(items);
      if StageAll(done).Ok? {
        var tree := StageAll(done).value;
        StageOneIff(tree, done, x);
        if StageOne(tree, x).Ok? {
          Trees.MakeDirsAdds(tree, Trees.Parent(x.path));
          Trees.PutWellFormed(tree, x);
          Trees.PutShows(tree, items);
        }
      }
    }
  }

  // ----- Order does not matter ---------------------------------------------------

  /** Conflict freedom seen without an order: no item twice, and no two different items clash. */
  ghost predicate Unrelated(items: multiset<Item>) {
    && (forall x :: x in items ==> items[x] == 1)
    && (forall x, y :: x in items && y in items && x != y ==> !Paths.Clash(x.path, y.path))
  }

  lemma UnrelatedAdd(m: multiset<Item>, x: Item)
    ensures Unrelated(m + multiset{x}) <==> Unrelated(m) && forall y :: y in m ==> !Paths.Clash(y.path, x.path)
  {
    var all := m + multiset{x};
    assert Paths.Clash(x.path, x.path) && x in all;
    if Unrelated(all) {
      assert all[x] == 1;
      forall y | y in m ensures m[y] == 1 && y != x && !Paths.Clash(y.path, x.path) {
        assert y in all && all[y] == 1;
      }
      assert forall y :: y in m ==> y in all;
    }
    if Unrelated(m) && (forall y :: y in m ==> !Paths.Clash(y.path, x.path)) {
      forall y | y in all ensures all[y] == 1 && (y == x || y in m) {}
    }
  }

  lemma {:induction false} ConflictFreeIff(items: seq<Item>)
    ensures ConflictFree(items) <==> Unrelated(multiset(items))
  {
    if items == [] {
    } else {
      var n := |items| - 1;
      var done, x := items[..n], items[n];
      assert items == done + [x];
      ConflictFreeIff(done);
      ConflictFreeStep(items);
      UnrelatedAdd(multiset(done), x);
      assert multiset(items) == multiset(done) + multiset{x};
      assert Fits(done, x) <==> forall y: Item :: y in multiset(done) ==> !Paths.Clash(y.path, x.path);
    }
  }

  lemma {:induction false} NodeAtItem(items: seq<Item>, x: Item)
    requires ConflictFree(items) && x in items
    ensures Trees.NodeAt(items, x.path) == x.node
  {
    var n := |items| - 1;
    ConflictFreeStep(items);
    if x != items[n] {
      assert items == items[..n] + [items[n]];
      assert x in items[..n];
      NodeAtItem(items[..n], x);
    }
  }

  lemma NodeAtSame(items: seq<Item>, other: seq<Item>, p: Path)
    requires AllLeaves(items) && AllLeaves(other) && ConflictFree(items) && ConflictFree(other)
    requires forall x :: x in items <==> x in other
    ensures Trees.NodeAt(items, p) == Trees.NodeAt(other, p)
  {
    DirAtIff(items, p);
    DirAtIff(other, p);
    if !Trees.NodeAt(items, p).Dir? {
      var x :| x in items && x.path == p;
      NodeAtItem(items, x);
      NodeAtItem(other, x);
    }
  }

  lemma SameTree(items: seq<Item>, other: seq<Item>, t: Tree, u: Tree)
    requires AllLeaves(items) && AllLeaves(other) && ConflictFree(items) && ConflictFree(other)
    requires forall x :: x in items <==> x in other
    requires Trees.Shows(t, items) && Trees.Shows(u, other)
    ensures t == u
  {
    forall p ensures (p in t <==> p in u) && Trees.NodeAt(items, p) == Trees.NodeAt(other, p) {
      Trees.CoversIff(items, p);
      Trees.CoversIff(other, p);
      NodeAtSame(items, other, p);
    }
  }

  /** Every order of the same entries gives the same outcome and the same tree. */
  lemma OrderIrrelevant(items: seq<Item>, other: seq<Item>)
    requires AllLeaves(items) && multiset(items) == multiset(other)
    ensures AllLeaves(other) && StageAll(items) == StageAll(other)
  {
    Ordering.Members(items, other);
    ConflictFreeIff(items);
    ConflictFreeIff(other);
    StageAllIff(items);
    StageAllIff(other);
    if StageAll(items).Ok? {
      SameTree(items, other, StageAll(items).value, StageAll(other).value);
    }
  }
}
