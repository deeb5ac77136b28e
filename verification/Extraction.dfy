/** Extraction of a downloaded ZIP archive: `extract_zip_archive` and what it calls. */
module Extraction {
  import opened Common

  import Paths
  import Trees

  type Name = Paths.Name

  /** A position below the destination: the names of the real directories down to it. */
  type Path = Paths.Path

  datatype Component = Normal(name: Name) | CurDir | ParentDir | RootDir

  datatype FileData = FileData(content: Bytes, mode: Option<nat>)

  type Node = Trees.Node<FileData, seq<Component>>

  /** The tree under the destination, which is at the empty path. */
  type Tree = Trees.Tree<FileData, seq<Component>>

  /** What reading an entry to its end gives: its bytes, then end of file or an error. */
  datatype Stream = Stream(bytes: Bytes, intact: bool)

  datatype Body =
    | Escaping
    | Unsupported
    | Symlink(target: seq<Component>, readable: bool)
    | Directory
    | Regular(declared: nat, stream: Stream, unixMode: nat)

  /** An archive entry: a sequence of names, written with a leading `.` when `dotted`. */
  datatype Entry = Entry(dotted: bool, path: Path, body: Body) {
    /** What `relative.components().count()` gives; a leading `.` counts. */
    function Components(): (n: nat) {
      |path| + if dotted then 1 else 0
    }
  }

  // ----- Link targets ------------------------------------------------------------

  /** Names, and `.`, only. */
  predicate NamesOnly(cs: seq<Component>) {
    forall i :: 0 <= i < |cs| ==> cs[i].Normal? || cs[i].CurDir?
  }

  /** Some `..`, no more than `depth`, followed by names only. */
  predicate Inside(depth: nat, cs: seq<Component>)
    decreases cs
  {
    if cs == [] then true
    else match cs[0]
      case CurDir => Inside(depth, cs[1..])
      case ParentDir => depth > 0 && Inside(depth - 1, cs[1..])
      case Normal(_) => NamesOnly(cs[1..])
      case RootDir => false
  }

  /** Every link of the tree is inside, seen from the directory that holds it. */
  ghost predicate LinksInside(tree: Tree) {
    forall p :: p in tree && tree[p].Link? ==> p != [] && Inside(|p| - 1, tree[p].target)
  }

  /** The loop of `extract_zip_symlink` over the target. */
  method CheckTarget(components: nat, target: seq<Component>) returns (ok: bool)
    ensures ok <==> Inside(SaturatingSub(components, 1), target)
  {
    var depth := SaturatingSub(components, 1);
    var descended := false;
    for i := 0 to |target|
      invariant Inside(SaturatingSub(components, 1), target) <==>
                if descended then NamesOnly(target[i..]) else Inside(depth, target[i..])
    {
      assert target[i..] == [target[i]] + target[i + 1..];
      assert NamesOnly(target[i..]) <==>
             (target[i].Normal? || target[i].CurDir?) && NamesOnly(target[i + 1..]) by {
        NamesOnlyCons(target[i], target[i + 1..]);
      }
      match target[i]
      case Normal(_) => descended := true;
      case CurDir =>
      case ParentDir =>
        if !descended && depth > 0 {
          depth := depth - 1;
        } else {
          return false;
        }
      case RootDir => return false;
    }
    ok := true;
  }

  lemma NamesOnlyCons(c: Component, cs: seq<Component>)
    ensures NamesOnly([c] + cs) <==> (c.Normal? || c.CurDir?) && NamesOnly(cs)
  {
    assert ([c] + cs)[0] == c;
    if NamesOnly([c] + cs) {
      forall i | 0 <= i < |cs| ensures cs[i].Normal? || cs[i].CurDir? {
        assert ([c] + cs)[i + 1] == cs[i];
      }
    }
  }

  // ----- Following a path --------------------------------------------------------

  /** Pathname resolution as in section 4.13 of the Base Definitions of POSIX.1-2017: a real
      directory and the components still to follow from it, or the end of the walk. */
  datatype Walk = At(dir: Path, pending: seq<Component>) | Stopped | Above

  function Step(tree: Tree, w: Walk): (next: Walk) {
    if !w.At? || w.pending == [] then w
    else
      var rest := w.pending[1..];
      match w.pending[0]
      case CurDir => At(w.dir, rest)
      case RootDir => Above
      case ParentDir => if w.dir == [] then Above else At(w.dir[..|w.dir| - 1], rest)
      case Normal(n) =>
        var p := w.dir + [n];
        if p !in tree then Stopped
        else match tree[p]
          case Dir => At(p, rest)
          case File(_) => Stopped
          case Link(target) => At(w.dir, target + rest)
  }

  function Follow(tree: Tree, w: Walk, steps: nat): (end: Walk)
    decreases steps
  {
    if steps == 0 then w else Follow(tree, Step(tree, w), steps - 1)
  }

  /** The walk stands in a real directory and what is pending cannot climb above the destination. */
  ghost predicate Confined(tree: Tree, w: Walk) {
    match w
    case At(dir, pending) => dir in tree && tree[dir].Dir? && Inside(|dir|, pending)
    case Stopped => true
    case Above => false
  }

  lemma {:induction false} InsideAppend(depth: nat, cs: seq<Component>, names: seq<Component>)
    requires Inside(depth, cs) && NamesOnly(names)
    ensures Inside(depth, cs + names)
  {
    if cs == [] {
      assert cs + names == names;
      NamesInside(depth, names);
    } else {
      assert (cs + names)[1..] == cs[1..] + names;
      match cs[0]
      case CurDir => InsideAppend(depth, cs[1..], names);
      case ParentDir => InsideAppend(depth - 1, cs[1..], names);
      case Normal(_) =>
    }
  }

  lemma {:induction false} NamesInside(depth: nat, names: seq<Component>)
    requires NamesOnly(names)
    ensures Inside(depth, names)
  {
    if names != [] && names[0].CurDir? {
      NamesInside(depth, names[1..]);
    }
  }

  lemma StepConfined(tree: Tree, w: Walk)
    requires Trees.WellFormed(tree) && LinksInside(tree) && Confined(tree, w)
    ensures Confined(tree, Step(tree, w))
  {
    if w.At? && w.pending != [] && w.pending[0].Normal? {
      var rest := w.pending[1..];
      var p := w.dir + [w.pending[0].name];
      if p in tree && tree[p].Link? {
        InsideAppend(|w.dir|, tree[p].target, rest);
      } else {
        NamesInside(|w.dir| + 1, rest);
      }
    }
  }

  /** Following any confined walk, over any number of links, never leaves the destination. */
  lemma {:induction false} NeverAbove(tree: Tree, w: Walk, steps: nat)
    requires Trees.WellFormed(tree) && LinksInside(tree) && Confined(tree, w)
    ensures Confined(tree, Follow(tree, w, steps)) && Follow(tree, w, steps) != Above
    decreases steps
  {
    if steps == 0 {
    } else {
      StepConfined(tree, w);
      NeverAbove(tree, Step(tree, w), steps - 1);
    }
  }

  /** No `..` follows a name and no component is a root. */
  predicate ClimbsFirst(cs: seq<Component>)
    decreases cs
  {
    if cs == [] then true
    else match cs[0]
      case CurDir => ClimbsFirst(cs[1..])
      case ParentDir => ClimbsFirst(cs[1..])
      case Normal(_) => NamesOnly(cs[1..])
      case RootDir => false
  }

  lemma {:induction false} InsideClimbsFirst(depth: nat, cs: seq<Component>)
    requires Inside(depth, cs)
    ensures ClimbsFirst(cs)
  {
    if cs == [] {
    } else {
      match cs[0]
      case CurDir => InsideClimbsFirst(depth, cs[1..]);
      case ParentDir => InsideClimbsFirst(depth - 1, cs[1..]);
      case Normal(_) =>
    }
  }

  /** A target that climbs first and is not inside leaves, whatever the tree holds. */
  lemma {:induction false} ClimbsAbove(tree: Tree, dir: Path, cs: seq<Component>) returns (n: nat)
    requires ClimbsFirst(cs) && !Inside(|dir|, cs)
    ensures Follow(tree, At(dir, cs), n) == Above
    decreases cs
  {
    var w := Step(tree, At(dir, cs));
    if w.At? {
      n := ClimbsAbove(tree, w.dir, cs[1..]);
      n := n + 1;
    } else {
      n := 1;
      assert Follow(tree, w, 0) == Above;
    }
  }

  /** A target that climbs first is accepted exactly when following it stays below the destination. */
  lemma InsideIffNeverAbove(tree: Tree, dir: Path, cs: seq<Component>)
    requires Trees.WellFormed(tree) && LinksInside(tree)
    requires dir in tree && tree[dir].Dir? && ClimbsFirst(cs)
    ensures Inside(|dir|, cs) <==> forall n: nat :: Follow(tree, At(dir, cs), n) != Above
  {
    if Inside(|dir|, cs) {
      forall n: nat ensures Follow(tree, At(dir, cs), n) != Above {
        NeverAbove(tree, At(dir, cs), n);
      }
    } else {
      var n := ClimbsAbove(tree, dir, cs);
    }
  }

  // ----- Extracting one entry ----------------------------------------------------

  /** `path`, or a directory above it, is a link of the tree. */
  ghost predicate Traverses(tree: Tree, path: Path) {
    exists i :: 0 < i <= |path| && path[..i] in tree && tree[path[..i]].Link?
  }

  datatype Outcome = Outcome(tree: Tree, remaining: nat, written: nat, ok: bool)

  /** The node a successful entry leaves at its path. */
  function NodeOf(body: Body): (node: Node) {
    match body
    case Symlink(target, _) => Trees.Link(target)
    case Regular(_, stream, mode) => Trees.File(FileData(stream.bytes, Permissions(mode)))
    case _ => Trees.Dir
  }

  /** The permission bits set on a file; none when the archive records no mode. */
  function Permissions(unixMode: nat): (mode: Option<nat>) {
    if unixMode == 0 then None else Some(unixMode % 0x200)
  }

  function PlacedBy(e: Entry): (x: Trees.Placed<FileData, seq<Component>>) {
    Trees.Placed(e.path, NodeOf(e.body))
  }

  function AllPlaced(entries: seq<Entry>): (all: seq<Trees.Placed<FileData, seq<Component>>>) {
    seq(|entries|, i requires 0 <= i < |entries| => PlacedBy(entries[i]))
  }

  /** `extract_bounded_file`: at most `remaining` bytes reach the file, whatever the entry holds. */
  ghost function ExtractFile(tree: Tree, path: Path, body: Body, remaining: nat): (o: Outcome)
    requires body.Regular?
  {
    if body.declared > remaining || !Trees.Mountable(tree, Trees.Parent(path)) then
      Outcome(tree, remaining, 0, false)
    else
      var t := Trees.MakeDirs(tree, Trees.Parent(path));
      if path in t && t[path].Dir? then Outcome(t, remaining, 0, false)
      else
        var taken := body.stream.bytes[..Min(remaining, |body.stream.bytes|)];
        var mode := if |taken| < remaining && !body.stream.intact then None else Permissions(body.unixMode);
        var whole := taken == body.stream.bytes && body.stream.intact;
        Outcome(t[path := Trees.File(FileData(taken, mode))],
                if whole then remaining - |taken| else remaining, |taken|, whole)
  }

  ghost function ExtractLink(tree: Tree, e: Entry, remaining: nat): (o: Outcome)
    requires e.body.Symlink?
  {
    var path, body := e.path, e.body;
    if !body.readable || !Inside(SaturatingSub(e.Components(), 1), body.target)
       || !Trees.Mountable(tree, Trees.Parent(path)) then
      Outcome(tree, remaining, 0, false)
    else
      var t := Trees.MakeDirs(tree, Trees.Parent(path));
      if path in t || body.target == [] then Outcome(t, remaining, 0, false)
      else Outcome(t[path := Trees.Link(body.target)], remaining, 0, true)
  }

  ghost function ExtractOne(tree: Tree, e: Entry, remaining: nat): (o: Outcome) {
    if e.body.Escaping? || e.body.Unsupported? || Traverses(tree, e.path) then
      Outcome(tree, remaining, 0, false)
    else match e.body
      case Symlink(_, _) => ExtractLink(tree, e, remaining)
      case Regular(_, _, _) => ExtractFile(tree, e.path, e.body, remaining)
      case _ =>
        if Trees.Mountable(tree, e.path) then Outcome(Trees.MakeDirs(tree, e.path), remaining, 0, true)
        else Outcome(tree, remaining, 0, false)
  }

  const FRESH: Tree := Trees.EmptyTree()

  /** Extraction of `entries` in order; it ends at the first entry that fails. */
  ghost function ExtractAll(entries: seq<Entry>, expansion: nat): (o: Outcome) {
    if entries == [] then Outcome(FRESH, expansion, 0, true)
    else
      var n := |entries| - 1;
      var before := ExtractAll(entries[..n], expansion);
      if !before.ok then before else Then(before, entries[n])
  }

  /** One more entry after a successful extraction. */
  ghost function Then(before: Outcome, e: Entry): (o: Outcome) {
    var one := ExtractOne(before.tree, e, before.remaining);
    one.(written := before.written + one.written)
  }

  // ----- Every extracted tree ----------------------------------------------------

  /** A file or a link may take any position that holds no directory. */
  lemma PutLeaf(tree: Tree, path: Path, node: Node)
    requires Trees.WellFormed(tree) && path != [] && Trees.Parent(path) in tree && tree[Trees.Parent(path)].Dir?
    requires !node.Dir? && (path in tree ==> !tree[path].Dir?)
    ensures Trees.WellFormed(tree[path := node])
  {
  }

  lemma ExtractOneWellFormed(tree: Tree, e: Entry, remaining: nat)
    requires Trees.WellFormed(tree)
    ensures Trees.WellFormed(ExtractOne(tree, e, remaining).tree)
    ensures var o := ExtractOne(tree, e, remaining);
            o.written <= remaining && (o.ok ==> o.remaining + o.written == remaining)
  {
    var up := if e.body.Directory? then e.path else Trees.Parent(e.path);
    if Trees.Mountable(tree, up) {
      Trees.MakeDirsAdds(tree, up);
      var t := Trees.MakeDirs(tree, up);
      if e.path != [] && (e.path in t ==> !t[e.path].Dir?) {
        if e.body.Regular? {
          var taken := e.body.stream.bytes[..Min(remaining, |e.body.stream.bytes|)];
          PutLeaf(t, e.path, Trees.File(FileData(taken, None)));
          PutLeaf(t, e.path, Trees.File(FileData(taken, Permissions(e.body.unixMode))));
        } else if e.body.Symlink? {
          PutLeaf(t, e.path, Trees.Link(e.body.target));
        }
      }
    }
  }

  /** Every tree extraction can leave, on success or failure, is well formed, and no more than
      `expansion` bytes were written to reach it. */
  lemma {:induction false} ExtractAllBounded(entries: seq<Entry>, expansion: nat)
    ensures Trees.WellFormed(ExtractAll(entries, expansion).tree)
    ensures var o := ExtractAll(entries, expansion);
            o.written <= expansion && (o.ok ==> o.remaining + o.written == expansion)
  {
    if entries == [] {
    } else {
      var n := |entries| - 1;
      ExtractAllBounded(entries[..n], expansion);
      var before := ExtractAll(entries[..n], expansion);
      ExtractOneWellFormed(before.tree, entries[n], before.remaining);
    }
  }

  /** A failed extraction is not continued. */
  lemma {:induction false} FailureEnds(entries: seq<Entry>, expansion: nat, n: nat)
    requires n <= |entries| && !ExtractAll(entries[..n], expansion).ok
    ensures ExtractAll(entries, expansion) == ExtractAll(entries[..n], expansion)
  {
    if n == |entries| {
      assert entries[..n] == entries;
    } else {
      assert entries[..|entries| - 1][..n] == entries[..n];
      FailureEnds(entries[..|entries| - 1], expansion, n);
    }
  }

  // ----- Confinement -------------------------------------------------------------

  predicate IsLink(tree: Tree, p: Path, target: seq<Component>) {
    p in tree && tree[p] == Trees.Link(target)
  }

  /** `e` is a link entry for `p` with this target. */
  predicate Links(e: Entry, p: Path, target: seq<Component>) {
    e.body.Symlink? && e.path == p && e.body.target == target
  }

  /** An entry adds its own link when it succeeds, and neither adds nor loses any other. */
  lemma ExtractOneLinks(tree: Tree, e: Entry, remaining: nat, p: Path, target: seq<Component>)
    requires Trees.WellFormed(tree)
    ensures var o := ExtractOne(tree, e, remaining);
            && (IsLink(o.tree, p, target) <==> IsLink(tree, p, target) || (o.ok && Links(e, p, target)))
            && (o.ok && e.body.Symlink? ==> e.path != [] && Inside(e.Components() - 1, e.body.target))
  {
    hide Inside;
    var up := if e.body.Directory? then e.path else Trees.Parent(e.path);
    if Trees.Mountable(tree, up) {
      Trees.MakeDirsAdds(tree, up);
    }
    if !Traverses(tree, e.path) && e.path != [] && e.path in tree {
      assert e.path[..|e.path|] == e.path;
      assert !tree[e.path].Link?;
    }
  }

  /** Entry `i` was extracted. */
  ghost predicate Extracted(entries: seq<Entry>, expansion: nat, i: nat) {
    i < |entries| && ExtractAll(entries[..i + 1], expansion).ok
  }

  ghost predicate LinkedBy(entries: seq<Entry>, expansion: nat, i: nat, p: Path, target: seq<Component>) {
    Extracted(entries, expansion, i) && Links(entries[i], p, target)
  }

  lemma ExtractedFront(entries: seq<Entry>, expansion: nat, i: nat)
    requires entries != []
    ensures Extracted(entries, expansion, i) <==>
            || Extracted(entries[..|entries| - 1], expansion, i)
            || (i == |entries| - 1 && ExtractAll(entries, expansion).ok)
  {
    var n := |entries| - 1;
    if i < n {
      assert entries[..n][..i + 1] == entries[..i + 1];
    } else if i == n {
      assert entries[..n + 1] == entries;
    }
  }

  /** The links of an extracted tree are exactly those of its extracted link entries. */
  lemma {:induction false} LinksOfAll(entries: seq<Entry>, expansion: nat, p: Path, target: seq<Component>)
    ensures IsLink(ExtractAll(entries, expansion).tree, p, target) <==>
            exists i: nat :: LinkedBy(entries, expansion, i, p, target)
  {
    hide ExtractOne, Links, IsLink;
    if entries == [] {
      assert IsLink(FRESH, p, target) ==> false by {
        NoLinks(p, target);
      }
    } else {
      var n := |entries| - 1;
      var front, before := entries[..n], ExtractAll(entries[..n], expansion);
      LinksOfAll(front, expansion, p, target);
      ExtractAllBounded(front, expansion);
      if before.ok {
        ExtractOneLinks(before.tree, entries[n], before.remaining, p, target);
      }
      forall i: nat
        ensures LinkedBy(entries, expansion, i, p, target) <==>
                || LinkedBy(front, expansion, i, p, target)
                || (i == n && ExtractAll(entries, expansion).ok && Links(entries[n], p, target))
      {
        ExtractedFront(entries, expansion, i);
      }
      if ExtractAll(entries, expansion).ok && Links(entries[n], p, target) {
        assert LinkedBy(entries, expansion, n, p, target);
      }
    }
  }

  lemma NoLinks(p: Path, target: seq<Component>)
    ensures !IsLink(FRESH, p, target)
  {
  }

  lemma LastExtracted(entries: seq<Entry>, expansion: nat, i: nat)
    requires Extracted(entries, expansion, i) && entries[i].body.Symlink?
    ensures entries[i].path != [] && Inside(entries[i].Components() - 1, entries[i].body.target)
  {
    hide Inside, ExtractOne;
    var upTo := entries[..i + 1];
    assert upTo[..i] == entries[..i];
    ExtractAllBounded(entries[..i], expansion);
    var before := ExtractAll(entries[..i], expansion);
    ExtractOneLinks(before.tree, entries[i], before.remaining, [], []);
  }

  /** A link entry with a leading `.` whose target climbs one level more than its position has. */
  predicate ClimbsOut(e: Entry) {
    && e.dotted && e.path != [] && e.body.Symlink?
    && Inside(|e.path|, e.body.target) && !Inside(|e.path| - 1, e.body.target)
  }

  /** No extracted entry climbs out. */
  ghost predicate NoneClimbsOut(entries: seq<Entry>, expansion: nat) {
    forall i: nat :: Extracted(entries, expansion, i) ==> !ClimbsOut(entries[i])
  }

  lemma ExtractedLinkInside(entries: seq<Entry>, expansion: nat, p: Path, target: seq<Component>)
    requires NoneClimbsOut(entries, expansion) && IsLink(ExtractAll(entries, expansion).tree, p, target)
    ensures p != [] && Inside(|p| - 1, target)
  {
    hide Inside, ExtractAll, Extracted, IsLink;
    LinksOfAll(entries, expansion, p, target);
    var i: nat :| LinkedBy(entries, expansion, i, p, target);
    LastExtracted(entries, expansion, i);
  }

  lemma ExtractedLink(entries: seq<Entry>, expansion: nat, i: nat)
    requires Extracted(entries, expansion, i) && entries[i].body.Symlink?
    ensures IsLink(ExtractAll(entries, expansion).tree, entries[i].path, entries[i].body.target)
  {
    hide ExtractAll, IsLink;
    var p, target := entries[i].path, entries[i].body.target;
    assert LinkedBy(entries, expansion, i, p, target);
    LinksOfAll(entries, expansion, p, target);
  }

  /** Following any path of names from any directory of the tree, for any number of steps, stays below
      the destination. */
  ghost predicate StaysInside(tree: Tree) {
    forall dir, names, steps: nat ::
      dir in tree && tree[dir].Dir? && NamesOnly(names) ==> Follow(tree, At(dir, names), steps) != Above
  }

  /** Whatever the archive holds and wherever its extraction stops, the extracted tree is confined
      exactly when no extracted link entry has a leading `.` and a target that uses the level it adds. */
  lemma StaysInsideIff(entries: seq<Entry>, expansion: nat)
    ensures StaysInside(ExtractAll(entries, expansion).tree) <==> NoneClimbsOut(entries, expansion)
  {
    hide ExtractAll, Inside, Step, NoneClimbsOut;
    var tree := ExtractAll(entries, expansion).tree;
    ExtractAllBounded(entries, expansion);
    if NoneClimbsOut(entries, expansion) {
      forall p | p in tree && tree[p].Link? ensures p != [] && Inside(|p| - 1, tree[p].target) {
        ExtractedLinkInside(entries, expansion, p, tree[p].target);
      }
      forall dir, names, steps: nat | dir in tree && tree[dir].Dir? && NamesOnly(names)
        ensures Follow(tree, At(dir, names), steps) != Above
      {
        NamesInside(|dir|, names);
        NeverAbove(tree, At(dir, names), steps);
      }
    } else {
      ClimberLeaves(entries, expansion);
    }
  }

  lemma ClimberLeaves(entries: seq<Entry>, expansion: nat)
    requires !NoneClimbsOut(entries, expansion)
    ensures !StaysInside(ExtractAll(entries, expansion).tree)
  {
    hide ExtractAll, Inside, StaysInside;
    var i: nat :| Extracted(entries, expansion, i) && ClimbsOut(entries[i]);
    ExtractAllBounded(entries, expansion);
    ExtractedLink(entries, expansion, i);
    InsideClimbsFirst(|entries[i].path|, entries[i].body.target);
    LinkLeaves(ExtractAll(entries, expansion).tree, entries[i].path, entries[i].body.target);
  }

  /** A link that is not inside can be followed out of the destination from its own directory. */
  lemma LinkLeaves(tree: Tree, p: Path, target: seq<Component>)
    requires Trees.WellFormed(tree) && p != [] && IsLink(tree, p, target)
    requires ClimbsFirst(target) && !Inside(|p| - 1, target)
    ensures !StaysInside(tree)
  {
    var dir, names := p[..|p| - 1], [Normal(p[|p| - 1])];
    assert dir + [p[|p| - 1]] == p;
    assert target + names[1..] == target;
    assert Step(tree, At(dir, names)) == At(dir, target);
    var n := ClimbsAbove(tree, dir, target);
    assert Follow(tree, At(dir, names), n + 1) == Above;
  }

  /** An archive whose link entries have no leading `.`, or none that uses it, is confined wherever its
      extraction stops. */
  lemma PlainArchiveStaysInside(entries: seq<Entry>, expansion: nat)
    requires forall i :: 0 <= i < |entries| ==> !ClimbsOut(entries[i])
    ensures StaysInside(ExtractAll(entries, expansion).tree)
  {
    hide ExtractAll, ClimbsOut, StaysInside;
    assert NoneClimbsOut(entries, expansion);
    StaysInsideIff(entries, expansion);
  }

  /** The smallest case: the component count of `./a` is two, so a target of one `..` is accepted. */
  lemma LeadingDotCounts(a: Name)
    ensures var entries := [Entry(true, [a], Symlink([ParentDir], true))];
            ExtractAll(entries, 0).ok && !StaysInside(ExtractAll(entries, 0).tree)
  {
    var e := Entry(true, [a], Symlink([ParentDir], true));
    assert Inside(1, [ParentDir]) && !Inside(0, [ParentDir]);
    assert [e][..0] == [];
    assert ExtractAll([e], 0).tree == FRESH[[a] := Trees.Link([ParentDir])];
    ExtractAllBounded([e], 0);
    LinkLeaves(ExtractAll([e], 0).tree, [a], [ParentDir]);
  }

  // ----- What a successful extraction produces -----------------------------------

  /** A successful entry makes its directories and leaves its node. */
  lemma ExtractOneShape(tree: Tree, e: Entry, remaining: nat)
    requires Trees.WellFormed(tree) && ExtractOne(tree, e, remaining).ok
    ensures Trees.Mountable(tree, Trees.DirsFor(PlacedBy(e)))
    ensures e.path == [] ==> NodeOf(e.body).Dir?
    ensures ExtractOne(tree, e, remaining).tree == Trees.Put(tree, PlacedBy(e))
  {
    Trees.MakeDirsAdds(tree, Trees.DirsFor(PlacedBy(e)));
  }

  /** A successful extraction produces exactly its entries and the directories above them. */
  lemma {:induction false} ExtractionComplete(entries: seq<Entry>, expansion: nat)
    requires ExtractAll(entries, expansion).ok
    ensures Trees.Shows(ExtractAll(entries, expansion).tree, AllPlaced(entries))
  {
    if entries == [] {
    } else {
      var n := |entries| - 1;
      var before := ExtractAll(entries[..n], expansion);
      ExtractAllBounded(entries[..n], expansion);
      ExtractionComplete(entries[..n], expansion);
      ExtractOneShape(before.tree, entries[n], before.remaining);
      assert AllPlaced(entries)[..n] == AllPlaced(entries[..n]);
      Trees.PutShows(before.tree, AllPlaced(entries));
    }
  }

  // ----- When an extraction succeeds ---------------------------------------------

  /** The bytes the files among `entries` hold. */
  function Spent(entries: seq<Entry>): (n: nat) {
    if entries == [] then 0
    else
      var last := entries[|entries| - 1].body;
      Spent(entries[..|entries| - 1]) + if last.Regular? then |last.stream.bytes| else 0
  }

  /** Nothing but directories stands above `path`. */
  predicate OnlyDirsAbove(earlier: seq<Entry>, path: Path) {
    forall x :: x in earlier && x.path < path ==> x.body.Directory?
  }

  /** What the archive must say for `e` to be extracted after `earlier`. */
  predicate Fits(earlier: seq<Entry>, e: Entry, expansion: nat) {
    match e.body
    case Escaping => false
    case Unsupported => false
    case Directory =>
      OnlyDirsAbove(earlier, e.path) && forall x :: x in earlier && x.path == e.path ==> x.body.Directory?
    case Symlink(target, readable) =>
      && e.path != [] && OnlyDirsAbove(earlier, e.path)
      && (forall x :: x in earlier ==> !(e.path <= x.path))
      && readable && target != [] && Inside(e.Components() - 1, target)
    case Regular(declared, stream, _) =>
      && e.path != [] && OnlyDirsAbove(earlier, e.path)
      && (forall x :: x in earlier && e.path <= x.path ==> x.path == e.path && x.body.Regular?)
      && Spent(earlier) + declared <= expansion
      && stream.intact && Spent(earlier) + |stream.bytes| <= expansion
  }

  predicate AllFit(entries: seq<Entry>, expansion: nat) {
    forall i :: 0 <= i < |entries| ==> Fits(entries[..i], entries[i], expansion)
  }

  /** A directory, a file or a link, as the entry's body says. */
  predicate KindOf(node: Node, body: Body) {
    && (node.Link? <==> body.Symlink?)
    && (node.File? <==> body.Regular?)
  }

  lemma AllFitFront(entries: seq<Entry>, expansion: nat)
    requires entries != []
    ensures var n := |entries| - 1;
            AllFit(entries, expansion) <==> AllFit(entries[..n], expansion) && Fits(entries[..n], entries[n], expansion)
  {
    hide Fits;
    var n := |entries| - 1;
    forall i | 0 <= i < n ensures entries[..n][..i] == entries[..i] {}
  }

  /** Entries that share a position are of one kind. */
  lemma SharedPathSameKind(earlier: seq<Entry>, x: Entry, e: Entry, expansion: nat)
    requires x in earlier && x.path == e.path && Fits(earlier, e, expansion)
    ensures KindOf(NodeOf(e.body), x.body) && KindOf(NodeOf(x.body), e.body)
  {
    hide Inside, Spent;
  }

  lemma AllPlacedFront(entries: seq<Entry>)
    requires entries != []
    ensures var n, all := |entries| - 1, AllPlaced(entries);
            |all| == n + 1 && all[..n] == AllPlaced(entries[..n]) && all[n] == PlacedBy(entries[n])
  {
  }

  /** What a position holds is of the kind of every entry for it. */
  lemma {:induction false} NodeAtKind(entries: seq<Entry>, expansion: nat, x: Entry)
    requires AllFit(entries, expansion) && x in entries
    ensures KindOf(Trees.NodeAt(AllPlaced(entries), x.path), x.body)
  {
    hide Fits, AllFit, AllPlaced;
    var n := |entries| - 1;
    var front := entries[..n];
    AllFitFront(entries, expansion);
    AllPlacedFront(entries);
    assert entries == front + [entries[n]];
    if x.path == entries[n].path {
      if x in front {
        SharedPathSameKind(front, x, entries[n], expansion);
      }
    } else {
      NodeAtKind(front, expansion, x);
    }
  }

  lemma {:induction false} NodeAtNone(entries: seq<Entry>, p: Path)
    requires forall x :: x in entries ==> x.path != p
    ensures Trees.NodeAt(AllPlaced(entries), p) == Trees.Dir
  {
    if entries == [] {
    } else {
      var n := |entries| - 1;
      assert AllPlaced(entries)[..n] == AllPlaced(entries[..n]);
      NodeAtNone(entries[..n], p);
    }
  }

  /** The tree an accepted archive leaves, read off its entries. */
  lemma ShownAt(tree: Tree, entries: seq<Entry>, expansion: nat, p: Path)
    requires AllFit(entries, expansion) && Trees.Shows(tree, AllPlaced(entries))
    ensures p in tree <==> p == [] || exists x :: x in entries && p <= x.path
    ensures p in tree ==> (tree[p].Dir? <==> forall x :: x in entries && x.path == p ==> x.body.Directory?)
    ensures p in tree ==> (tree[p].Link? <==> exists x :: x in entries && x.path == p && x.body.Symlink?)
    ensures p in tree ==> forall x :: x in entries && x.path == p ==> KindOf(tree[p], x.body)
  {
    hide AllFit, Trees.NodeAt, Trees.Covers;
    var all := AllPlaced(entries);
    Trees.CoversIff(all, p);
    if x :| x in entries && p <= x.path {
      var i :| 0 <= i < |entries| && entries[i] == x;
      assert all[i] in all && Trees.LeadsTo(p, all[i].path);
    }
    if y :| y in all && Trees.LeadsTo(p, y.path) {
      var i :| 0 <= i < |all| && all[i] == y;
      assert entries[i] in entries && p <= entries[i].path;
    }
    forall x | x in entries && x.path == p ensures KindOf(Trees.NodeAt(all, p), x.body) && Decided(x) {
      NodeAtKind(entries, expansion, x);
      EntryDecided(entries, expansion, x);
    }
    if forall x :: x in entries ==> x.path != p {
      NodeAtNone(entries, p);
    }
  }

  predicate Decided(x: Entry) {
    !x.body.Escaping? && !x.body.Unsupported?
  }

  lemma EntryDecided(entries: seq<Entry>, expansion: nat, x: Entry)
    requires AllFit(entries, expansion) && x in entries
    ensures Decided(x)
  {
    var i :| 0 <= i < |entries| && entries[i] == x;
    assert Fits(entries[..i], entries[i], expansion);
  }

  /** A directory can be made at `path` exactly when only directories were placed at or above it. */
  lemma MountableIff(tree: Tree, entries: seq<Entry>, expansion: nat, path: Path)
    requires AllFit(entries, expansion) && Trees.Shows(tree, AllPlaced(entries))
    ensures Trees.Mountable(tree, path) <==> forall x :: x in entries && x.path <= path ==> x.body.Directory?
  {
    hide AllFit, Trees.Shows;
    if Trees.Mountable(tree, path) {
      forall x | x in entries && x.path <= path ensures x.body.Directory? {
        var i := |x.path|;
        assert path[..i] == x.path;
        ShownAt(tree, entries, expansion, x.path);
      }
    }
    if forall x :: x in entries && x.path <= path ==> x.body.Directory? {
      forall i | 0 <= i <= |path| && path[..i] in tree ensures tree[path[..i]].Dir? {
        ShownAt(tree, entries, expansion, path[..i]);
      }
    }
  }

  lemma TraversesIff(tree: Tree, entries: seq<Entry>, expansion: nat, path: Path)
    requires AllFit(entries, expansion) && Trees.Shows(tree, AllPlaced(entries))
    ensures Traverses(tree, path) <==> exists x :: x in entries && x.path <= path && x.body.Symlink?
  {
    hide AllFit, Trees.Shows;
    if i :| 0 < i <= |path| && path[..i] in tree && tree[path[..i]].Link? {
      ShownAt(tree, entries, expansion, path[..i]);
      var x :| x in entries && x.path == path[..i] && x.body.Symlink?;
      assert x.path <= path;
    }
    if x :| x in entries && x.path <= path && x.body.Symlink? {
      var i := |x.path|;
      assert path[..i] == x.path;
      ShownAt(tree, entries, expansion, x.path);
      LinkBelowRoot(entries, expansion, x);
    }
  }

  lemma LinkBelowRoot(entries: seq<Entry>, expansion: nat, x: Entry)
    requires AllFit(entries, expansion) && x in entries && x.body.Symlink?
    ensures x.path != []
  {
    hide Inside;
    var i :| 0 <= i < |entries| && entries[i] == x;
    assert Fits(entries[..i], entries[i], expansion);
  }

  lemma AboveParent(entries: seq<Entry>, path: Path)
    requires path != []
    ensures (forall x :: x in entries && x.path <= Trees.Parent(path) ==> x.body.Directory?) <==>
            OnlyDirsAbove(entries, path)
  {
    var up := Trees.Parent(path);
    forall x: Entry ensures x.path <= up <==> x.path < path {
      Trees.LeadsToStep(x.path, path);
    }
  }

  lemma DirectoryIff(before: Outcome, earlier: seq<Entry>, e: Entry, expansion: nat)
    requires AllFit(earlier, expansion) && Trees.Shows(before.tree, AllPlaced(earlier)) && e.body.Directory?
    ensures ExtractOne(before.tree, e, before.remaining).ok <==> Fits(earlier, e, expansion)
  {
    hide AllFit, Trees.Shows, Traverses, Trees.MakeDirs, Trees.Mountable;
    MountableIff(before.tree, earlier, expansion, e.path);
    TraversesIff(before.tree, earlier, expansion, e.path);
    assert forall x: Entry :: x.path <= e.path <==> x.path < e.path || x.path == e.path;
  }

  /** What a position holds once the directories above it are made is what it held before. */
  lemma MadeAbove(tree: Tree, path: Path)
    requires Trees.WellFormed(tree) && path != [] && Trees.Mountable(tree, Trees.Parent(path))
    ensures var t := Trees.MakeDirs(tree, Trees.Parent(path));
            (path in t <==> path in tree) && (path in t ==> t[path] == tree[path])
  {
    Trees.MakeDirsAdds(tree, Trees.Parent(path));
  }

  lemma LinkIff(before: Outcome, earlier: seq<Entry>, e: Entry, expansion: nat)
    requires Trees.WellFormed(before.tree) && AllFit(earlier, expansion)
    requires Trees.Shows(before.tree, AllPlaced(earlier)) && e.body.Symlink?
    ensures ExtractOne(before.tree, e, before.remaining).ok <==> Fits(earlier, e, expansion)
  {
    hide AllFit, Trees.Shows, Traverses, Trees.MakeDirs, Trees.Mountable, Inside, Trees.WellFormed;
    var tree := before.tree;
    TraversesIff(tree, earlier, expansion, e.path);
    ShownAt(tree, earlier, expansion, e.path);
    if e.path != [] {
      AboveParent(earlier, e.path);
      MountableIff(tree, earlier, expansion, Trees.Parent(e.path));
      if Trees.Mountable(tree, Trees.Parent(e.path)) {
        MadeAbove(tree, e.path);
      }
      assert forall x: Entry :: x.path <= e.path <==> x.path < e.path || x.path == e.path;
    } else {
      RootStays(tree);
    }
  }

  lemma RootStays(tree: Tree)
    requires Trees.WellFormed(tree)
    ensures [] in tree && tree[[]].Dir? && Trees.MakeDirs(tree, Trees.Parent([])) == tree
  {
  }

  /** A file may take `path` exactly when nothing but files was placed at it and nothing below it. */
  lemma FreeForFile(tree: Tree, earlier: seq<Entry>, expansion: nat, path: Path)
    requires Trees.WellFormed(tree) && AllFit(earlier, expansion) && Trees.Shows(tree, AllPlaced(earlier))
    requires path != []
    ensures (path in tree ==> tree[path].File?) <==>
            forall x :: x in earlier && path <= x.path ==> x.path == path && x.body.Regular?
  {
    hide AllFit, Trees.Shows, Trees.WellFormed;
    ShownAt(tree, earlier, expansion, path);
    forall x | x in earlier && path < x.path ensures path in tree && tree[path].Dir? {
      ShownAt(tree, earlier, expansion, x.path);
      Trees.AboveIsDir(tree, path, x.path);
    }
    assert forall x: Entry :: path <= x.path <==> path < x.path || path == x.path;
    forall x | x in earlier ensures Decided(x) {
      EntryDecided(earlier, expansion, x);
    }
  }

  lemma FileIff(before: Outcome, earlier: seq<Entry>, e: Entry, expansion: nat)
    requires Trees.WellFormed(before.tree) && AllFit(earlier, expansion)
    requires Trees.Shows(before.tree, AllPlaced(earlier)) && e.body.Regular?
    requires before.remaining + Spent(earlier) == expansion
    ensures ExtractOne(before.tree, e, before.remaining).ok <==> Fits(earlier, e, expansion)
  {
    hide AllFit, Trees.Shows, Traverses, Trees.MakeDirs, Trees.Mountable, Spent, Trees.WellFormed;
    var tree, bytes := before.tree, e.body.stream.bytes;
    TraversesIff(tree, earlier, expansion, e.path);
    assert |bytes| <= before.remaining ==> bytes[..|bytes|] == bytes;
    if e.path != [] {
      ShownAt(tree, earlier, expansion, e.path);
      FreeForFile(tree, earlier, expansion, e.path);
      AboveParent(earlier, e.path);
      MountableIff(tree, earlier, expansion, Trees.Parent(e.path));
      if Trees.Mountable(tree, Trees.Parent(e.path)) {
        MadeAbove(tree, e.path);
      }
      assert forall x: Entry :: x.path <= e.path <==> x.path < e.path || x.path == e.path;
    } else {
      RootStays(tree);
    }
  }

  /** An extraction succeeds exactly when every entry fits after those before it, and it then has spent exactly
      the bytes of its files. */
  lemma {:induction false} ExtractsIff(entries: seq<Entry>, expansion: nat)
    ensures ExtractAll(entries, expansion).ok <==> AllFit(entries, expansion)
    ensures ExtractAll(entries, expansion).ok ==>
              ExtractAll(entries, expansion).written == Spent(entries) <= expansion
  {
    hide ExtractOne, Fits, AllFit;
    if entries == [] {
      NoneFit(expansion);
    } else {
      var n := |entries| - 1;
      var front, e, before := entries[..n], entries[n], ExtractAll(entries[..n], expansion);
      ExtractsIff(front, expansion);
      AllFitFront(entries, expansion);
      if before.ok {
        ExtractAllBounded(front, expansion);
        ExtractionComplete(front, expansion);
        OneIff(before, front, e, expansion);
      }
      ExtractAllBounded(entries, expansion);
    }
  }

  lemma NoneFit(expansion: nat)
    ensures AllFit([], expansion)
  {
  }

  lemma OneIff(before: Outcome, earlier: seq<Entry>, e: Entry, expansion: nat)
    requires Trees.WellFormed(before.tree) && AllFit(earlier, expansion)
    requires Trees.Shows(before.tree, AllPlaced(earlier))
    requires before.remaining + Spent(earlier) == expansion
    ensures var o := ExtractOne(before.tree, e, before.remaining);
            && (o.ok <==> Fits(earlier, e, expansion))
            && (o.ok ==> o.written == if e.body.Regular? then |e.body.stream.bytes| else 0)
  {
    hide AllFit, Trees.Shows, Spent, Trees.WellFormed, Traverses, Trees.Mountable, Trees.MakeDirs, Inside;
    hide OnlyDirsAbove;
    match e.body
    case Directory => DirectoryIff(before, earlier, e, expansion);
    case Symlink(_, _) => LinkIff(before, earlier, e, expansion);
    case Regular(_, _, _) => FileIff(before, earlier, e, expansion);
    case _ =>
  }

  /** No entry after `i` is for the same path. */
  predicate LastAt(entries: seq<Entry>, i: nat) {
    i < |entries| && forall j :: i < j < |entries| ==> entries[j].path != entries[i].path
  }

  lemma {:induction false} LastPlaced(entries: seq<Entry>, i: nat)
    requires LastAt(entries, i)
    ensures Trees.NodeAt(AllPlaced(entries), entries[i].path) == NodeOf(entries[i].body)
    ensures Trees.Covers(AllPlaced(entries), entries[i].path)
  {
    var n := |entries| - 1;
    assert AllPlaced(entries)[n] == PlacedBy(entries[n]);
    if i < n {
      assert AllPlaced(entries)[..n] == AllPlaced(entries[..n]);
      LastPlaced(entries[..n], i);
    }
  }

  /** What a successful extraction leaves at the path of its last entry for it: a directory; the entry's target;
      or the entry's bytes, with the low nine bits of its mode when it records one. */
  lemma ExtractedNode(entries: seq<Entry>, expansion: nat, i: nat)
    requires ExtractAll(entries, expansion).ok && LastAt(entries, i)
    ensures var tree, e := ExtractAll(entries, expansion).tree, entries[i];
            && e.path in tree
            && match e.body
               case Directory => tree[e.path] == Trees.Dir
               case Symlink(target, _) => tree[e.path] == Trees.Link(target)
               case Regular(_, stream, mode) =>
                 && tree[e.path].File? && tree[e.path].file.content == stream.bytes
                 && (tree[e.path].file.mode.None? <==> mode == 0)
                 && (mode != 0 ==> tree[e.path].file.mode.value == mode % 0x200)
               case _ => false
  {
    hide ExtractAll, AllFit, Trees.NodeAt, Trees.Covers;
    ExtractionComplete(entries, expansion);
    LastPlaced(entries, i);
    ExtractsIff(entries, expansion);
    assert entries[i] in entries;
    EntryDecided(entries, expansion, entries[i]);
  }

  // ----- The extractor -----------------------------------------------------------

  /** The destination on disk and the file bytes written below it. */
  class Destination {
    var tree: Tree
    var written: nat

    constructor ()
      ensures tree == FRESH && written == 0
    {
      tree := FRESH;
      written := 0;
    }

    method TraversesExtractedSymlink(path: Path) returns (found: bool)
      ensures found <==> Traverses(tree, path)
    {
      var current := [];
      for i := 0 to |path|
        invariant current == path[..i]
        invariant forall j :: 0 < j <= i ==> !(path[..j] in tree && tree[path[..j]].Link?)
      {
        current := current + [path[i]];
        assert current == path[..i + 1];
        if current in tree && tree[current].Link? {
          return true;
        }
      }
      found := false;
    }

    /** `extract_zip_symlink` */
    method ExtractSymlink(e: Entry, ghost remaining: nat) returns (ok: bool)
      requires e.body.Symlink?
      modifies `tree
      ensures Outcome(tree, remaining, 0, ok) == ExtractLink(old(tree), e, remaining)
    {
      var path, body := e.path, e.body;
      if !body.readable {
        return false;
      }
      var inside := CheckTarget(e.Components(), body.target);
      if !inside || !Trees.Mountable(tree, Trees.Parent(path)) {
        return false;
      }
      tree := Trees.MakeDirs(tree, Trees.Parent(path));
      if path in tree || body.target == [] {
        return false;
      }
      tree := tree[path := Trees.Link(body.target)];
      ok := true;
    }

    /** `extract_bounded_file`: copies through a reader limited to `remaining`, then probes for more. */
    method ExtractBoundedFile(path: Path, body: Body, remaining: nat) returns (copied: Option<nat>)
      requires body.Regular?
      modifies this
      ensures var o := ExtractFile(old(tree), path, body, remaining);
              && tree == o.tree && written == old(written) + o.written
              && copied == if o.ok then Some(o.written) else None
    {
      if body.declared > remaining || !Trees.Mountable(tree, Trees.Parent(path)) {
        return None;
      }
      tree := Trees.MakeDirs(tree, Trees.Parent(path));
      if path in tree && tree[path].Dir? {
        return None;
      }
      var available := |body.stream.bytes|;
      var count := Min(remaining, available);
      tree := tree[path := Trees.File(FileData(body.stream.bytes[..count], None))];
      written := written + count;
      if count < remaining && !body.stream.intact {
        return None;
      }
      tree := tree[path := Trees.File(FileData(body.stream.bytes[..count], Permissions(body.unixMode)))];
      if count < available || !body.stream.intact {
        return None;
      }
      assert body.stream.bytes[..count] == body.stream.bytes;
      copied := Some(count);
    }

    /** The body of the entry loop of `extract_zip_archive`. */
    method ExtractEntry(e: Entry, remaining: nat) returns (left: nat, ok: bool)
      modifies this
      ensures var o := ExtractOne(old(tree), e, remaining);
              tree == o.tree && written == old(written) + o.written && left == o.remaining && ok == o.ok
    {
      left, ok := remaining, false;
      var traverses := TraversesExtractedSymlink(e.path);
      if e.body.Escaping? || e.body.Unsupported? || traverses {
        return;
      }
      match e.body
      case Symlink(_, _) =>
        ok := ExtractSymlink(e, remaining);
      case Directory =>
        if Trees.Mountable(tree, e.path) {
          tree := Trees.MakeDirs(tree, e.path);
          ok := true;
        }
      case Regular(_, _, _) =>
        var copied := ExtractBoundedFile(e.path, e.body, remaining);
        if copied.Some? {
          left := remaining - copied.value;
          ok := true;
        }
    }

    /** `extract_zip_archive` */
    method ExtractArchive(entries: seq<Entry>, expansion: nat) returns (ok: bool)
      requires tree == FRESH && written == 0
      modifies this
      ensures var o := ExtractAll(entries, expansion);
              tree == o.tree && written == o.written && ok == o.ok
      ensures Trees.WellFormed(tree) && written <= expansion
      ensures StaysInside(tree) <==> NoneClimbsOut(entries, expansion)
      ensures ok <==> AllFit(entries, expansion)
      ensures ok ==> Trees.Shows(tree, AllPlaced(entries)) && written == Spent(entries)
    {
      hide AllFit, Trees.Shows, ExtractOne, StaysInside, NoneClimbsOut, Trees.WellFormed;
      ExtractsIff(entries, expansion);
      ExtractAllBounded(entries, expansion);
      StaysInsideIff(entries, expansion);
      var remaining := expansion;
      for i := 0 to |entries|
        invariant ExtractAll(entries[..i], expansion) == Outcome(tree, remaining, written, true)
      {
        assert entries[..i + 1][..i] == entries[..i];
        remaining, ok := ExtractEntry(entries[i], remaining);
        if !ok {
          FailureEnds(entries, expansion, i + 1);
          return;
        }
      }
      assert entries[..|entries|] == entries;
      ok := true;
      ExtractionComplete(entries, expansion);
    }
  }
}
