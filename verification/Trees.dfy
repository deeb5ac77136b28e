/** A directory tree as a finite map from positions to nodes, and what placing nodes into it does. */
module Trees {
  import Paths

  /** A node; `F` is what a regular file carries and `T` what a link target is. */
  datatype Node<F, T> = Dir | File(file: F) | Link(target: T)

  type Path = Paths.Path

  /** The tree below a directory, which is itself at the empty path. */
  type Tree<F, T> = map<Path, Node<F, T>>

  function EmptyTree<F, T>(): (tree: Tree<F, T>) {
    map[[] := Dir]
  }

  ghost predicate WellFormed<F, T>(tree: Tree<F, T>) {
    && [] in tree && tree[[]].Dir?
    && forall p :: p in tree && p != [] ==> p[..|p| - 1] in tree && tree[p[..|p| - 1]].Dir?
  }

  /** `p` is `path` or a position above it. */
  predicate LeadsTo(p: Path, path: Path) {
    p <= path
  }

  function Parent(path: Path): (up: Path) {
    if path == [] then [] else path[..|path| - 1]
  }

  /** Every existing position on the way to `path`, and `path` itself, is a directory. */
  predicate Mountable<F, T>(tree: Tree<F, T>, path: Path) {
    forall i :: 0 <= i <= |path| ==> path[..i] in tree ==> tree[path[..i]].Dir?
  }

  /** Makes the missing directories down to `path`. */
  function MakeDirs<F, T>(tree: Tree<F, T>, path: Path): (r: Tree<F, T>) {
    if path == [] then tree
    else
      var above := MakeDirs(tree, path[..|path| - 1]);
      if path in above then above else above[path := Dir]
  }

  lemma {:induction false} MakeDirsAdds<F, T>(tree: Tree<F, T>, path: Path)
    requires WellFormed(tree) && Mountable(tree, path)
    ensures WellFormed(MakeDirs(tree, path))
    ensures path in MakeDirs(tree, path) && MakeDirs(tree, path)[path].Dir?
    ensures forall p :: p in MakeDirs(tree, path) <==> p in tree || LeadsTo(p, path)
    ensures forall p :: p in MakeDirs(tree, path) ==>
              MakeDirs(tree, path)[p] == if p in tree then tree[p] else Dir
  {
    if path == [] {
    } else {
      var up := path[..|path| - 1];
      forall i | 0 <= i <= |up| ensures up[..i] == path[..i] {}
      MakeDirsAdds(tree, up);
      assert path[..|path|] == path;
      forall p ensures LeadsTo(p, path) <==> LeadsTo(p, up) || p == path {
        LeadsToStep(p, path);
      }
    }
  }

  lemma LeadsToStep(p: Path, path: Path)
    requires path != []
    ensures LeadsTo(p, path) <==> LeadsTo(p, path[..|path| - 1]) || p == path
  {
    if LeadsTo(p, path) && |p| < |path| {
      assert p == path[..|p|];
    }
  }

  // ----- Placing nodes one after the other ---------------------------------------

  datatype Placed<F, T> = Placed(path: Path, node: Node<F, T>)

  /** The directories made for a placement. */
  function DirsFor<F, T>(x: Placed<F, T>): (up: Path) {
    if x.node.Dir? then x.path else Parent(x.path)
  }

  function Put<F, T>(tree: Tree<F, T>, x: Placed<F, T>): (r: Tree<F, T>) {
    MakeDirs(tree, DirsFor(x))[x.path := x.node]
  }

  /** Some placement is at `p` or below it. */
  predicate Covers<F, T>(done: seq<Placed<F, T>>, p: Path) {
    done != [] && (LeadsTo(p, done[|done| - 1].path) || Covers(done[..|done| - 1], p))
  }

  /** What the last placement at `p` put there; a directory when there is none. */
  function NodeAt<F, T>(done: seq<Placed<F, T>>, p: Path): (node: Node<F, T>) {
    if done == [] then Dir
    else
      var n := |done| - 1;
      if done[n].path == p then done[n].node else NodeAt(done[..n], p)
  }

  /** The tree holds the placements and the directories above them, and nothing else. */
  ghost predicate Shows<F, T>(tree: Tree<F, T>, done: seq<Placed<F, T>>) {
    && (forall p :: p in tree <==> p == [] || Covers(done, p))
    && (forall p :: p in tree ==> tree[p] == NodeAt(done, p))
  }

  lemma {:induction false} CoversIff<F, T>(done: seq<Placed<F, T>>, p: Path)
    ensures Covers(done, p) <==> exists x :: x in done && LeadsTo(p, x.path)
  {
    if done == [] {
    } else {
      var n := |done| - 1;
      CoversIff(done[..n], p);
      assert done == done[..n] + [done[n]];
    }
  }

  lemma {:induction false} NothingAt<F, T>(done: seq<Placed<F, T>>, p: Path)
    requires !Covers(done, p)
    ensures NodeAt(done, p) == Dir
  {
    if done == [] {
    } else {
      NothingAt(done[..|done| - 1], p);
    }
  }

  /** Placing one more node adds it and the directories above it, and changes nothing else. */
  lemma PutShows<F, T>(tree: Tree<F, T>, all: seq<Placed<F, T>>)
    requires all != [] && WellFormed(tree) && Shows(tree, all[..|all| - 1])
    requires Mountable(tree, DirsFor(all[|all| - 1]))
    requires all[|all| - 1].path == [] ==> all[|all| - 1].node.Dir?
    ensures Shows(Put(tree, all[|all| - 1]), all)
  {
    var done, x := all[..|all| - 1], all[|all| - 1];
    var r := Put(tree, x);
    MakeDirsAdds(tree, DirsFor(x));
    forall p ensures p in r <==> p == [] || Covers(all, p) {
      if x.path != [] {
        LeadsToStep(p, x.path);
      }
    }
    forall p | p in r ensures r[p] == NodeAt(all, p) {
      if p != x.path && p !in tree {
        NothingAt(done, p);
      }
    }
  }

  /** Everything above a position of the tree is a directory of it. */
  lemma {:induction false} AboveIsDir<F, T>(tree: Tree<F, T>, p: Path, q: Path)
    requires WellFormed(tree) && q in tree && p < q
    ensures p in tree && tree[p].Dir?
    decreases q
  {
    var up := q[..|q| - 1];
    if p == up {
    } else {
      LeadsToStep(p, q);
      AboveIsDir(tree, p, up);
    }
  }

  /** A node that is no directory may take any position that holds none. */
  lemma PutWellFormed<F, T>(tree: Tree<F, T>, x: Placed<F, T>)
    requires WellFormed(tree) && Mountable(tree, DirsFor(x))
    requires !x.node.Dir? ==>
               x.path != [] && (x.path in MakeDirs(tree, DirsFor(x)) ==> !MakeDirs(tree, DirsFor(x))[x.path].Dir?)
    ensures WellFormed(Put(tree, x))
  {
    MakeDirsAdds(tree, DirsFor(x));
  }
}
