/** Capturing a directory: the walk of `collect_directory_entries` in both symlink modes. */
module DirectoryCapture {
  import opened Common
  import Codec = DirectoryCodec
  import Paths

  type Name = Paths.Name
  type Path = Paths.Path

  /** A node at a canonical path. `resolved` is where following the link ends, if it ends. */
  datatype Node =
    | Dir
    | File(mode: nat, content: Bytes)
    | Link(target: Bytes, resolved: Option<Path>)
    | Special

  /** A filesystem, and the order in which each directory lists its entries. */
  datatype Fs = Fs(nodes: map<Path, Node>, listing: map<Path, seq<Name>>) {
    predicate Has(p: Path) {
      p in nodes
    }

    predicate IsDir(p: Path) {
      p in nodes && nodes[p].Dir?
    }

    /** Every position is a named entry of a directory, and a link that resolves ends at a node that is no link. */
    ghost predicate Sound(p: Path)
      requires Has(p)
    {
      && (p != [] ==> IsDir(p[..|p| - 1]) && Paths.IsName(p[|p| - 1]))
      && (nodes[p].Link? && nodes[p].resolved.Some? ==>
            nodes[p].resolved.value in nodes && !nodes[nodes[p].resolved.value].Link?)
    }

    /** Each directory lists each of its entries once. */
    ghost predicate ListsAll(p: Path)
      requires IsDir(p)
    {
      && p in listing && Distinct(listing[p])
      && forall n :: n in listing[p] <==> Has(p + [n])
    }

    ghost predicate Valid() {
      && (forall p :: Has(p) ==> Sound(p))
      && (forall p :: IsDir(p) ==> ListsAll(p))
    }

    /** The positions below `p`. */
    ghost function Below(p: Path): (s: set<Path>) {
      set q | q in nodes && p < q
    }

    /** The directories that are not being materialized. */
    ghost function Idle(active: set<Path>): (s: set<Path>) {
      set q | q in nodes && nodes[q].Dir? && q !in active
    }
  }

  /** An entry before its path is written out. */
  datatype Captured = Captured(path: Path, kind: Codec.Kind, mode: nat, content: Bytes)

  datatype Mode = Preserve | MaterializeExternal

  datatype Walk = Walk(fs: Fs, root: Path, mode: Mode) {
    ghost predicate Valid() {
      fs.Valid()
    }

    /** `capture_symlink_entry` */
    function LinkEntry(p: Path, logical: Path): (c: Captured)
      requires p in fs.nodes && fs.nodes[p].Link?
    {
      var node := fs.nodes[p];
      var kind := if node.resolved.Some? && fs.IsDir(node.resolved.value) then Codec.SymlinkDir else Codec.SymlinkFile;
      Captured(logical, kind, 0x1FF, node.target)
    }

    /** `capture_file_entry` */
    function FileEntry(p: Path, logical: Path): (c: Captured)
      requires p in fs.nodes && fs.nodes[p].File?
    {
      Captured(logical, Codec.File, fs.nodes[p].mode % 0x200, fs.nodes[p].content)
    }

    /** The entries below directory `dir` for the listed `names`, recorded below `logical`. `active`
        holds the external directories being materialized around it. */
    ghost function Names(dir: Path, logical: Path, active: set<Path>, names: seq<Name>): (es: seq<Captured>)
      requires Valid() && fs.IsDir(dir)
      requires forall n :: n in names ==> n in fs.listing[dir]
      decreases |fs.Idle(active)|, |fs.Below(dir)|, |names|
    {
      if names == [] then []
      else
        var k := |names| - 1;
        assert names == names[..k] + [names[k]];
        Names(dir, logical, active, names[..k]) + One(dir, logical, active, names[k])
    }

    /** What the first `i` listed entries of `dir` contribute. */
    ghost function Listed(dir: Path, logical: Path, active: set<Path>, i: nat): (es: seq<Captured>)
      requires Valid() && fs.IsDir(dir) && i <= |fs.listing[dir]|
    {
      Names(dir, logical, active, fs.listing[dir][..i])
    }

    ghost function Directory(dir: Path, logical: Path, active: set<Path>): (es: seq<Captured>)
      requires Valid() && fs.IsDir(dir)
      decreases |fs.Idle(active)|, |fs.Below(dir)|, |fs.listing[dir]| + 1
    {
      Names(dir, logical, active, fs.listing[dir])
    }

    ghost function One(dir: Path, logical: Path, active: set<Path>, n: Name): (es: seq<Captured>)
      requires Valid() && fs.IsDir(dir) && n in fs.listing[dir]
      decreases |fs.Idle(active)|, |fs.Below(dir)|, 0
    {
      var p, l := dir + [n], logical + [n];
      assert fs.Has(p);
      match fs.nodes[p]
      case File(_, _) => [FileEntry(p, l)]
      case Special => []
      case Dir =>
        BelowShrinks(fs, dir, n);
        Directory(p, l, active)
      case Link(_, resolved) =>
        assert fs.Sound(p);
        if mode.Preserve? || resolved.None? || root <= resolved.value then [LinkEntry(p, l)]
        else
          var q := resolved.value;
          match fs.nodes[q]
          case File(_, _) => [FileEntry(q, l)]
          case Special => [LinkEntry(p, l)]
          case Dir =>
            if q in active then [LinkEntry(p, l)]
            else
              IdleShrinks(fs, active, q);
              Directory(q, l, active + {q})
    }
  }

  lemma ListedStep(walk: Walk, dir: Path, logical: Path, active: set<Path>, i: nat)
    requires walk.Valid() && walk.fs.IsDir(dir) && i < |walk.fs.listing[dir]|
    ensures walk.Listed(dir, logical, active, i + 1) ==
            walk.Listed(dir, logical, active, i) + walk.One(dir, logical, active, walk.fs.listing[dir][i])
  {
    var names := walk.fs.listing[dir];
    assert names[..i + 1][..i] == names[..i];
  }

  /** A subdirectory has fewer positions below it. */
  lemma BelowShrinks(fs: Fs, dir: Path, n: Name)
    requires dir + [n] in fs.nodes
    ensures |fs.Below(dir + [n])| < |fs.Below(dir)|
  {
    var p := dir + [n];
    assert p in fs.Below(dir) && p !in fs.Below(p);
    assert fs.Below(p) <= fs.Below(dir);
    Subset(fs.Below(p), fs.Below(dir), p);
  }

  /** Materializing one more external directory leaves fewer to materialize. */
  lemma IdleShrinks(fs: Fs, active: set<Path>, q: Path)
    requires fs.IsDir(q) && q !in active
    ensures |fs.Idle(active + {q})| < |fs.Idle(active)|
  {
    Subset(fs.Idle(active + {q}), fs.Idle(active), q);
  }

  lemma Subset(a: set<Path>, b: set<Path>, x: Path)
    requires a <= b && x in b && x !in a
    ensures |a| < |b|
  {
    var c := b - {x};
    assert a <= c;
    SubsetCard(a, c);
    assert b == c + {x};
  }

  lemma {:induction false} SubsetCard(a: set<Path>, b: set<Path>)
    requires a <= b
    ensures |a| <= |b|
    decreases |a|
  {
    if a != {} {
      var x :| x in a;
      SubsetCard(a - {x}, b - {x});
    }
  }

  // ----- The walker --------------------------------------------------------------

  /** `entries` and `materialized_dirs` of the recursive walk. */
  class Collector {
    const walk: Walk
    var entries: seq<Captured>
    var materialized: set<Path>

    constructor (walk: Walk)
      ensures this.walk == walk && entries == [] && materialized == {}
    {
      this.walk := walk;
      entries := [];
      materialized := {};
    }

    /** `collect_directory_entries`: ends on every filesystem, since each step into a directory leaves
        either fewer idle directories or fewer positions below. */
    method CollectDirectory(dir: Path, logical: Path)
      requires walk.Valid() && walk.fs.IsDir(dir)
      modifies this
      ensures entries == old(entries) + walk.Directory(dir, logical, old(materialized))
      ensures materialized == old(materialized)
      decreases |walk.fs.Idle(materialized)|, |walk.fs.Below(dir)|, 1
    {
      var names := walk.fs.listing[dir];
      ghost var before, active := entries, materialized;
      for i := 0 to |names|
        invariant materialized == active
        invariant entries == before + walk.Listed(dir, logical, active, i)
      {
        ListedStep(walk, dir, logical, active, i);
        CollectEntry(dir, logical, names[i]);
      }
      assert names[..|names|] == names;
    }

    method CollectEntry(dir: Path, logical: Path, n: Name)
      requires walk.Valid() && walk.fs.IsDir(dir) && n in walk.fs.listing[dir]
      modifies this
      ensures entries == old(entries) + walk.One(dir, logical, old(materialized), n)
      ensures materialized == old(materialized)
      decreases |walk.fs.Idle(materialized)|, |walk.fs.Below(dir)|, 0
    {
      var p, l := dir + [n], logical + [n];
      assert walk.fs.Has(p);
      match walk.fs.nodes[p]
      case File(_, _) => entries := entries + [walk.FileEntry(p, l)];
      case Special =>
      case Dir =>
        BelowShrinks(walk.fs, dir, n);
        CollectDirectory(p, l);
      case Link(_, resolved) =>
        if walk.mode.Preserve? || resolved.None? || walk.root <= resolved.value {
          entries := entries + [walk.LinkEntry(p, l)];
        } else {
          CollectExternal(dir, logical, n);
        }
    }

    /** `collect_symlink_entry` for a link that leaves the captured directory. */
    method CollectExternal(dir: Path, logical: Path, n: Name)
      requires walk.Valid() && walk.fs.IsDir(dir) && n in walk.fs.listing[dir]
      requires var node := (assert walk.fs.Has(dir + [n]); walk.fs.nodes[dir + [n]]);
               && walk.mode.MaterializeExternal? && node.Link? && node.resolved.Some?
               && !(walk.root <= node.resolved.value)
      modifies this
      ensures entries == old(entries) + walk.One(dir, logical, old(materialized), n)
      ensures materialized == old(materialized)
      decreases |walk.fs.Idle(materialized)|, |walk.fs.Below(dir)|, 0, 0
    {
      var p, l := dir + [n], logical + [n];
      assert walk.fs.Sound(p);
      var q := walk.fs.nodes[p].resolved.value;
      match walk.fs.nodes[q]
      case File(_, _) => entries := entries + [walk.FileEntry(q, l)];
      case Special => entries := entries + [walk.LinkEntry(p, l)];
      case Dir =>
        if q in materialized {
          entries := entries + [walk.LinkEntry(p, l)];
        } else {
          IdleShrinks(walk.fs, materialized, q);
          materialized := materialized + {q};
          CollectDirectory(q, l);
          materialized := materialized - {q};
        }
    }
  }

  // ----- What the walk collects --------------------------------------------------

  /** No two entries clash. */
  ghost predicate Apart(es: seq<Captured>) {
    forall i, j :: 0 <= i < j < |es| ==> !Paths.Clash(es[i].path, es[j].path)
  }

  /** `path` enters `logical` through one of `names`. */
  predicate Through(path: Path, logical: Path, names: seq<Name>) {
    |path| > |logical| && path[..|logical|] == logical && path[|logical|] in names
  }

  lemma {:induction false} NamesThrough(walk: Walk, dir: Path, logical: Path, active: set<Path>, names: seq<Name>)
    requires walk.Valid() && walk.fs.IsDir(dir)
    requires forall n :: n in names ==> n in walk.fs.listing[dir]
    ensures forall c :: c in walk.Names(dir, logical, active, names) ==> Through(c.path, logical, names)
    decreases |walk.fs.Idle(active)|, |walk.fs.Below(dir)|, |names|
  {
    if names == [] {
    } else {
      var k := |names| - 1;
      assert names == names[..k] + [names[k]];
      NamesThrough(walk, dir, logical, active, names[..k]);
      OneThrough(walk, dir, logical, active, names[k]);
      forall c | c in walk.Names(dir, logical, active, names) ensures Through(c.path, logical, names) {
        if c in walk.Names(dir, logical, active, names[..k]) {
          assert Through(c.path, logical, names[..k]);
        } else {
          assert Through(c.path, logical, [names[k]]);
        }
      }
    }
  }

  lemma {:induction false} OneThrough(walk: Walk, dir: Path, logical: Path, active: set<Path>, n: Name)
    requires walk.Valid() && walk.fs.IsDir(dir) && n in walk.fs.listing[dir]
    ensures forall c :: c in walk.One(dir, logical, active, n) ==> Through(c.path, logical, [n])
    decreases |walk.fs.Idle(active)|, |walk.fs.Below(dir)|, 0
  {
    var p, l := dir + [n], logical + [n];
    assert walk.fs.Has(p);
    assert walk.fs.Sound(p);
    var into := Entered(walk, dir, active, n);
    if into.Some? {
      EnteredShrinks(walk, dir, active, n);
      var (q, active') := into.value;
      NamesThrough(walk, q, l, active', walk.fs.listing[q]);
      forall c | c in walk.One(dir, logical, active, n) ensures Through(c.path, logical, [n]) {
        assert Through(c.path, l, walk.fs.listing[q]);
        ThroughUp(c.path, logical, n, walk.fs.listing[q]);
      }
    }
  }

  lemma ThroughUp(path: Path, logical: Path, n: Name, names: seq<Name>)
    requires Through(path, logical + [n], names)
    ensures Through(path, logical, [n])
  {
    var l := logical + [n];
    assert path[..|l|] == l;
    assert path[..|logical|] == path[..|l|][..|logical|] == logical;
    assert path[|logical|] == path[..|l|][|logical|] == n;
  }

  /** The directory the walk enters at `n`, with the external directories active inside it. */
  ghost function Entered(walk: Walk, dir: Path, active: set<Path>, n: Name): (r: Option<(Path, set<Path>)>)
    requires walk.Valid() && walk.fs.IsDir(dir) && n in walk.fs.listing[dir]
  {
    var p := dir + [n];
    assert walk.fs.Has(p);
    match walk.fs.nodes[p]
    case Dir => Some((p, active))
    case Link(_, resolved) =>
      assert walk.fs.Sound(p);
      if walk.mode.MaterializeExternal? && resolved.Some? && !(walk.root <= resolved.value)
         && walk.fs.IsDir(resolved.value) && resolved.value !in active
      then Some((resolved.value, active + {resolved.value}))
      else None
    case _ => None
  }

  /** Entering a directory lowers the measure of the walk. */
  lemma EnteredShrinks(walk: Walk, dir: Path, active: set<Path>, n: Name)
    requires walk.Valid() && walk.fs.IsDir(dir) && n in walk.fs.listing[dir]
    requires Entered(walk, dir, active, n).Some?
    ensures var (q, active') := Entered(walk, dir, active, n).value;
            && walk.fs.IsDir(q)
            && (|| |walk.fs.Idle(active')| < |walk.fs.Idle(active)|
                || (active' == active && |walk.fs.Below(q)| < |walk.fs.Below(dir)|))
            && forall logical :: walk.One(dir, logical, active, n) == walk.Directory(q, logical + [n], active')
  {
    var p := dir + [n];
    assert walk.fs.Has(p);
    assert walk.fs.Sound(p);
    if walk.fs.nodes[p].Dir? {
      BelowShrinks(walk.fs, dir, n);
    } else {
      IdleShrinks(walk.fs, active, walk.fs.nodes[p].resolved.value);
    }
  }

  lemma ApartAppend(a: seq<Captured>, b: seq<Captured>)
    requires Apart(a) && Apart(b)
    requires forall x, y :: x in a && y in b ==> !Paths.Clash(x.path, y.path)
    ensures Apart(a + b)
  {
    var s := a + b;
    forall i, j | 0 <= i < j < |s| ensures !Paths.Clash(s[i].path, s[j].path) {
      if j < |a| {
        assert s[i] == a[i] && s[j] == a[j];
      } else if i >= |a| {
        assert s[i] == b[i - |a|] && s[j] == b[j - |a|];
      } else {
        assert s[i] == a[i] && s[j] == b[j - |a|];
      }
    }
  }

  lemma ThroughApart(p: Path, q: Path, logical: Path, names: seq<Name>, n: Name)
    requires Through(p, logical, names) && Through(q, logical, [n]) && n !in names
    ensures !Paths.Clash(p, q)
  {
    assert p[|logical|] != q[|logical|];
  }

  lemma {:induction false} NamesApart(walk: Walk, dir: Path, logical: Path, active: set<Path>, names: seq<Name>)
    requires walk.Valid() && walk.fs.IsDir(dir) && Distinct(names)
    requires forall n :: n in names ==> n in walk.fs.listing[dir]
    ensures Apart(walk.Names(dir, logical, active, names))
    decreases |walk.fs.Idle(active)|, |walk.fs.Below(dir)|, |names|
  {
    if names == [] {
    } else {
      var k := |names| - 1;
      assert names == names[..k] + [names[k]];
      NamesApart(walk, dir, logical, active, names[..k]);
      OneApart(walk, dir, logical, active, names[k]);
      NamesThrough(walk, dir, logical, active, names[..k]);
      OneThrough(walk, dir, logical, active, names[k]);
      var a, b := walk.Names(dir, logical, active, names[..k]), walk.One(dir, logical, active, names[k]);
      forall x, y | x in a && y in b ensures !Paths.Clash(x.path, y.path) {
        ThroughApart(x.path, y.path, logical, names[..k], names[k]);
      }
      ApartAppend(a, b);
    }
  }

  lemma {:induction false} OneApart(walk: Walk, dir: Path, logical: Path, active: set<Path>, n: Name)
    requires walk.Valid() && walk.fs.IsDir(dir) && n in walk.fs.listing[dir]
    ensures Apart(walk.One(dir, logical, active, n))
    decreases |walk.fs.Idle(active)|, |walk.fs.Below(dir)|, 0
  {
    var into := Entered(walk, dir, active, n);
    if into.Some? {
      EnteredShrinks(walk, dir, active, n);
      var (q, active') := into.value;
      assert walk.fs.ListsAll(q);
      NamesApart(walk, q, logical + [n], active', walk.fs.listing[q]);
    } else {
      assert walk.fs.Has(dir + [n]) && walk.fs.Sound(dir + [n]);
      assert |walk.One(dir, logical, active, n)| <= 1;
    }
  }

  /** No captured path equals or is above another, whatever the links of the filesystem. */
  lemma WalkApart(walk: Walk, dir: Path, logical: Path, active: set<Path>)
    requires walk.Valid() && walk.fs.IsDir(dir)
    ensures Apart(walk.Directory(dir, logical, active))
  {
    assert walk.fs.ListsAll(dir);
    NamesApart(walk, dir, logical, active, walk.fs.listing[dir]);
  }

  // ----- The order of listings does not matter -----------------------------------

  lemma {:induction false} NamesMember(walk: Walk, dir: Path, logical: Path, active: set<Path>, names: seq<Name>,
                                       c: Captured)
    requires walk.Valid() && walk.fs.IsDir(dir)
    requires forall n :: n in names ==> n in walk.fs.listing[dir]
    ensures c in walk.Names(dir, logical, active, names) <==>
            exists n :: n in names && c in walk.One(dir, logical, active, n)
    decreases names
  {
    if names == [] {
    } else {
      var k := |names| - 1;
      assert names == names[..k] + [names[k]];
      NamesMember(walk, dir, logical, active, names[..k], c);
      NamesLast(walk, dir, logical, active, names, c);
      if n :| n in names && c in walk.One(dir, logical, active, n) {
        assert n == names[k] || n in names[..k];
      }
      if n :| n in names[..k] && c in walk.One(dir, logical, active, n) {
        assert n in names;
      }
      assert names[k] in names;
    }
  }

  lemma NamesLast(walk: Walk, dir: Path, logical: Path, active: set<Path>, names: seq<Name>, c: Captured)
    requires walk.Valid() && walk.fs.IsDir(dir) && names != []
    requires forall n :: n in names ==> n in walk.fs.listing[dir]
    ensures var k := |names| - 1;
            && (forall n :: n in names[..k] ==> n in names) && names[k] in names
            && (c in walk.Names(dir, logical, active, names) <==>
                c in walk.Names(dir, logical, active, names[..k]) || c in walk.One(dir, logical, active, names[k]))
  {
  }

  /** Two walks of the same nodes in the same mode, which may list directories differently. */
  ghost predicate SameNodes(w: Walk, u: Walk) {
    w.Valid() && u.Valid() && w.fs.nodes == u.fs.nodes && w.root == u.root && w.mode == u.mode
  }

  lemma SameListed(w: Walk, u: Walk, dir: Path, n: Name)
    requires SameNodes(w, u) && w.fs.IsDir(dir)
    ensures u.fs.IsDir(dir) && (n in w.fs.listing[dir] <==> n in u.fs.listing[dir])
  {
    assert w.fs.ListsAll(dir) && u.fs.ListsAll(dir);
    assert w.fs.Has(dir + [n]) <==> u.fs.Has(dir + [n]);
  }

  lemma {:induction false} DirectorySame(w: Walk, u: Walk, dir: Path, logical: Path, active: set<Path>, c: Captured)
    requires SameNodes(w, u) && w.fs.IsDir(dir)
    ensures u.fs.IsDir(dir)
    ensures c in w.Directory(dir, logical, active) ==> c in u.Directory(dir, logical, active)
    decreases |w.fs.Idle(active)|, |w.fs.Below(dir)|, 1
  {
    assert u.fs.IsDir(dir);
    if c in w.Directory(dir, logical, active) {
      NamesMember(w, dir, logical, active, w.fs.listing[dir], c);
      var n :| n in w.fs.listing[dir] && c in w.One(dir, logical, active, n);
      SameListed(w, u, dir, n);
      OneSame(w, u, dir, logical, active, n, c);
      NamesMember(u, dir, logical, active, u.fs.listing[dir], c);
    }
  }

  lemma {:induction false} OneSame(w: Walk, u: Walk, dir: Path, logical: Path, active: set<Path>, n: Name, c: Captured)
    requires SameNodes(w, u) && w.fs.IsDir(dir) && n in w.fs.listing[dir]
    requires u.fs.IsDir(dir) && n in u.fs.listing[dir]
    ensures c in w.One(dir, logical, active, n) ==> c in u.One(dir, logical, active, n)
    decreases |w.fs.Idle(active)|, |w.fs.Below(dir)|, 0
  {
    var p := dir + [n];
    assert w.fs.Has(p) && w.fs.Sound(p) && u.fs.Has(p) && u.fs.Sound(p);
    assert Entered(w, dir, active, n) == Entered(u, dir, active, n);
    var into := Entered(w, dir, active, n);
    if into.Some? {
      EnteredShrinks(w, dir, active, n);
      EnteredShrinks(u, dir, active, n);
      var (q, active') := into.value;
      DirectorySame(w, u, q, logical + [n], active', c);
    }
  }

  /** The walk collects the same entries whatever order each directory is listed in. */
  lemma ListingIrrelevant(w: Walk, u: Walk, dir: Path, logical: Path, active: set<Path>)
    requires SameNodes(w, u) && w.fs.IsDir(dir)
    ensures u.fs.IsDir(dir)
    ensures forall c :: c in w.Directory(dir, logical, active) <==> c in u.Directory(dir, logical, active)
  {
    assert u.fs.IsDir(dir);
    forall c ensures c in w.Directory(dir, logical, active) <==> c in u.Directory(dir, logical, active) {
      DirectorySame(w, u, dir, logical, active, c);
      DirectorySame(u, w, dir, logical, active, c);
    }
  }

  // ----- Preserve mode -----------------------------------------------------------

  /** A file or a link. */
  predicate IsLeaf(fs: Fs, p: Path) {
    p in fs.nodes && (fs.nodes[p].File? || fs.nodes[p].Link?)
  }

  function LeafEntry(walk: Walk, p: Path, logical: Path): (c: Captured)
    requires IsLeaf(walk.fs, p)
  {
    if walk.fs.nodes[p].File? then walk.FileEntry(p, logical) else walk.LinkEntry(p, logical)
  }

  /** `c` records the leaf at `rel` below `dir`. */
  predicate Records(walk: Walk, dir: Path, logical: Path, rel: Path, c: Captured) {
    rel != [] && IsLeaf(walk.fs, dir + rel) && c == LeafEntry(walk, dir + rel, logical + rel)
  }

  /** Every position above an existing one is a directory. */
  lemma {:induction false} AncestorsAreDirs(fs: Fs, p: Path, k: nat)
    requires fs.Valid() && fs.Has(p) && k < |p|
    ensures fs.IsDir(p[..k])
  {
    assert fs.Sound(p);
    var up := p[..|p| - 1];
    if k < |up| {
      assert fs.Has(up);
      AncestorsAreDirs(fs, up, k);
      assert up[..k] == p[..k];
    }
  }

  /** In Preserve mode the walk collects exactly the files and links below the directory. */
  lemma {:induction false} PreserveCollects(walk: Walk, dir: Path, logical: Path, active: set<Path>, c: Captured)
    requires walk.Valid() && walk.fs.IsDir(dir) && walk.mode.Preserve?
    requires c in walk.Directory(dir, logical, active)
    ensures exists rel :: Records(walk, dir, logical, rel, c)
    decreases |walk.fs.Below(dir)|
  {
    NamesMember(walk, dir, logical, active, walk.fs.listing[dir], c);
    var n :| n in walk.fs.listing[dir] && c in walk.One(dir, logical, active, n);
    var p := dir + [n];
    assert walk.fs.Has(p) && walk.fs.Sound(p);
    if walk.fs.nodes[p].Dir? {
      BelowShrinks(walk.fs, dir, n);
      PreserveCollects(walk, p, logical + [n], active, c);
      var rel :| Records(walk, p, logical + [n], rel, c);
      assert dir + ([n] + rel) == p + rel && logical + ([n] + rel) == logical + [n] + rel;
      assert Records(walk, dir, logical, [n] + rel, c);
    } else {
      assert Records(walk, dir, logical, [n], c);
    }
  }

  lemma {:induction false} PreserveRecorded(walk: Walk, dir: Path, logical: Path, active: set<Path>, rel: Path,
                                            c: Captured)
    requires walk.Valid() && walk.fs.IsDir(dir) && walk.mode.Preserve?
    requires Records(walk, dir, logical, rel, c)
    ensures c in walk.Directory(dir, logical, active)
    decreases rel
  {
    var n, p := rel[0], dir + [rel[0]];
    var full := dir + rel;
    assert walk.fs.Has(full);
    assert full[..|dir| + 1] == p;
    if |rel| == 1 {
      assert full == p && logical + rel == logical + [n];
    } else {
      AncestorsAreDirs(walk.fs, full, |dir| + 1);
      assert p + rel[1..] == full && logical + [n] + rel[1..] == logical + rel;
      PreserveRecorded(walk, p, logical + [n], active, rel[1..], c);
    }
    assert walk.fs.ListsAll(dir) && walk.fs.Has(p);
    assert n in walk.fs.listing[dir] && c in walk.One(dir, logical, active, n);
    NamesMember(walk, dir, logical, active, walk.fs.listing[dir], c);
  }

  /** What an entry records of the node at its position. */
  predicate Mirrors(fs: Fs, node: Node, c: Captured) {
    match node
    case File(mode, content) => c.kind.File? && c.mode == mode % 0x200 && c.content == content
    case Link(target, resolved) =>
      && c.kind == (if resolved.Some? && fs.IsDir(resolved.value) then Codec.SymlinkDir else Codec.SymlinkFile)
      && c.mode == 0x1FF && c.content == target
    case _ => false
  }

  /** A capture that keeps links holds exactly one entry per file and link below its root, and that entry mirrors
      the node at its path. */
  lemma PreservedIff(walk: Walk, c: Captured)
    requires walk.Valid() && walk.fs.IsDir(walk.root) && walk.mode.Preserve?
    ensures c in walk.Directory(walk.root, [], {}) <==>
            && c.path != [] && walk.root + c.path in walk.fs.nodes
            && Mirrors(walk.fs, walk.fs.nodes[walk.root + c.path], c)
  {
    hide walk.Directory, walk.Valid;
    if c in walk.Directory(walk.root, [], {}) {
      PreserveCollects(walk, walk.root, [], {}, c);
      var rel :| Records(walk, walk.root, [], rel, c);
      assert [] + rel == rel == c.path;
    } else if c.path != [] && walk.root + c.path in walk.fs.nodes
              && Mirrors(walk.fs, walk.fs.nodes[walk.root + c.path], c) {
      assert [] + c.path == c.path;
      assert Records(walk, walk.root, [], c.path, c);
      PreserveRecorded(walk, walk.root, [], {}, c.path, c);
    }
  }

  // ----- Names -------------------------------------------------------------------

  lemma {:induction false} NamesNormal(walk: Walk, dir: Path, logical: Path, active: set<Path>, c: Captured)
    requires walk.Valid() && walk.fs.IsDir(dir) && Paths.IsNormal(logical)
    requires c in walk.Directory(dir, logical, active)
    ensures Paths.IsNormal(c.path) && c.path != []
    decreases |walk.fs.Idle(active)|, |walk.fs.Below(dir)|
  {
    NamesMember(walk, dir, logical, active, walk.fs.listing[dir], c);
    var n :| n in walk.fs.listing[dir] && c in walk.One(dir, logical, active, n);
    var p := dir + [n];
    assert walk.fs.Has(p) && walk.fs.Sound(p);
    var into := Entered(walk, dir, active, n);
    if into.Some? {
      EnteredShrinks(walk, dir, active, n);
      var (q, active') := into.value;
      NamesNormal(walk, q, logical + [n], active', c);
    } else {
      assert c.path == logical + [n];
    }
  }

  // ----- MaterializeExternal mode ------------------------------------------------

  /** Where the walk stands after following `names` from `dir`: the directory it lists there, and the
      external directories it is materializing around it. */
  ghost function Standing(walk: Walk, dir: Path, active: set<Path>, names: Path): (r: Option<(Path, set<Path>)>)
    requires walk.Valid() && walk.fs.IsDir(dir)
    ensures r.Some? ==> walk.fs.IsDir(r.value.0)
    decreases names
  {
    if names == [] then Some((dir, active))
    else if names[0] !in walk.fs.listing[dir] then None
    else
      match Entered(walk, dir, active, names[0])
      case None => None
      case Some((q, active')) => Standing(walk, q, active', names[1..])
  }

  /** Why a link stays a link: links are preserved, or it does not resolve, stays inside the captured
      directory, ends at a special file, or ends at an external directory that is being materialized
      around it. */
  predicate KeptAsLink(walk: Walk, p: Path, around: set<Path>) {
    && p in walk.fs.nodes && walk.fs.nodes[p].Link?
    && var resolved := walk.fs.nodes[p].resolved;
       || walk.mode.Preserve?
       || resolved.None?
       || walk.root <= resolved.value
       || (resolved.value in around && walk.fs.IsDir(resolved.value))
       || (resolved.value in walk.fs.nodes && walk.fs.nodes[resolved.value].Special?)
  }

  /** The one entry that the node at `p` is captured as when the walk stands above it; none for a special
      file and for what the walk enters. */
  ghost function OwnEntry(walk: Walk, p: Path, around: set<Path>, logical: Path): (c: Option<Captured>)
    requires walk.Valid() && walk.fs.Has(p)
  {
    match walk.fs.nodes[p]
    case File(_, _) => Some(walk.FileEntry(p, logical))
    case Link(_, resolved) =>
      assert walk.fs.Sound(p);
      if KeptAsLink(walk, p, around) then Some(walk.LinkEntry(p, logical))
      else if walk.fs.nodes[resolved.value].File? then Some(walk.FileEntry(resolved.value, logical))
      else None
    case _ => None
  }

  /** `c` is what the walk captures at `rel`: it gets to the directory above through the names before the
      last one, and the last one names a node with an entry of its own. */
  ghost predicate CapturedAt(walk: Walk, dir: Path, logical: Path, active: set<Path>, rel: Path, c: Captured)
    requires walk.Valid() && walk.fs.IsDir(dir)
  {
    && rel != []
    && var last := |rel| - 1;
       var at := Standing(walk, dir, active, rel[..last]);
       && at.Some? && walk.fs.Has(at.value.0 + [rel[last]])
       && OwnEntry(walk, at.value.0 + [rel[last]], at.value.1, logical + rel) == Some(c)
  }

  lemma OwnEntryIff(walk: Walk, dir: Path, logical: Path, active: set<Path>, n: Name, c: Captured)
    requires walk.Valid() && walk.fs.IsDir(dir) && n in walk.fs.listing[dir]
    ensures walk.fs.Has(dir + [n])
    ensures Entered(walk, dir, active, n).Some? ==> OwnEntry(walk, dir + [n], active, logical + [n]).None?
    ensures Entered(walk, dir, active, n).None? ==>
              (c in walk.One(dir, logical, active, n) <==> OwnEntry(walk, dir + [n], active, logical + [n]) == Some(c))
  {
    var p, l := dir + [n], logical + [n];
    assert walk.fs.Has(p) && walk.fs.Sound(p);
    if Entered(walk, dir, active, n).None? {
      var own := OwnEntry(walk, p, active, l);
      assert walk.One(dir, logical, active, n) == if own.Some? then [own.value] else [];
    }
  }

  /** Below a directory the walk enters, it captures at `[n] + rel` what it captures there at `rel`. */
  lemma CapturedBelow(walk: Walk, dir: Path, logical: Path, active: set<Path>, n: Name, rel: Path, c: Captured)
    requires walk.Valid() && walk.fs.IsDir(dir) && n in walk.fs.listing[dir] && rel != []
    requires Entered(walk, dir, active, n).Some?
    ensures var (q, active') := Entered(walk, dir, active, n).value;
            && walk.fs.IsDir(q)
            && (CapturedAt(walk, dir, logical, active, [n] + rel, c) <==>
                CapturedAt(walk, q, logical + [n], active', rel, c))
  {
    hide OwnEntry;
    EnteredShrinks(walk, dir, active, n);
    var full, last := [n] + rel, |rel| - 1;
    assert full[..|full| - 1] == [n] + rel[..last];
    assert ([n] + rel[..last])[1..] == rel[..last];
    assert logical + full == logical + [n] + rel;
  }

  lemma CapturedNotEmpty(walk: Walk, dir: Path, logical: Path, active: set<Path>, rel: Path, c: Captured)
    requires walk.Valid() && walk.fs.IsDir(dir) && CapturedAt(walk, dir, logical, active, rel, c)
    ensures rel != []
  {
  }

  /** The walk captures exactly what stands at the places it gets to, in both modes. */
  lemma {:induction false} WalkCollects(walk: Walk, dir: Path, logical: Path, active: set<Path>, c: Captured)
    requires walk.Valid() && walk.fs.IsDir(dir) && c in walk.Directory(dir, logical, active)
    ensures exists rel :: CapturedAt(walk, dir, logical, active, rel, c)
    decreases |walk.fs.Idle(active)|, |walk.fs.Below(dir)|
  {
    hide OwnEntry, CapturedAt, Entered;
    NamesMember(walk, dir, logical, active, walk.fs.listing[dir], c);
    var n :| n in walk.fs.listing[dir] && c in walk.One(dir, logical, active, n);
    OwnEntryIff(walk, dir, logical, active, n, c);
    var into := Entered(walk, dir, active, n);
    if into.Some? {
      EnteredShrinks(walk, dir, active, n);
      var (q, active') := into.value;
      WalkCollects(walk, q, logical + [n], active', c);
      var rel :| CapturedAt(walk, q, logical + [n], active', rel, c);
      CapturedNotEmpty(walk, q, logical + [n], active', rel, c);
      CapturedBelow(walk, dir, logical, active, n, rel, c);
    } else {
      CapturedHere(walk, dir, logical, active, n, c);
    }
  }

  lemma CapturedHere(walk: Walk, dir: Path, logical: Path, active: set<Path>, n: Name, c: Captured)
    requires walk.Valid() && walk.fs.IsDir(dir) && walk.fs.Has(dir + [n])
    requires OwnEntry(walk, dir + [n], active, logical + [n]) == Some(c)
    ensures CapturedAt(walk, dir, logical, active, [n], c)
  {
    hide OwnEntry, Entered;
    var rel: Path := [n];
    assert rel[..0] == [];
  }

  lemma {:induction false} WalkCaptures(walk: Walk, dir: Path, logical: Path, active: set<Path>, rel: Path, c: Captured)
    requires walk.Valid() && walk.fs.IsDir(dir) && CapturedAt(walk, dir, logical, active, rel, c)
    ensures c in walk.Directory(dir, logical, active)
    decreases rel
  {
    hide OwnEntry;
    var n := rel[0];
    assert walk.fs.ListsAll(dir);
    if |rel| == 1 {
      assert rel == [n] && rel[..0] == [];
      assert walk.fs.Has(dir + [n]);
      OwnEntryIff(walk, dir, logical, active, n, c);
    } else {
      assert rel == [n] + rel[1..] && rel[..|rel| - 1][0] == n;
      CapturedBelow(walk, dir, logical, active, n, rel[1..], c);
      EnteredShrinks(walk, dir, active, n);
      var (q, active') := Entered(walk, dir, active, n).value;
      WalkCaptures(walk, q, logical + [n], active', rel[1..], c);
    }
    assert c in walk.One(dir, logical, active, n);
    NamesMember(walk, dir, logical, active, walk.fs.listing[dir], c);
  }

  /** What is being materialized around a place are external directories. */
  lemma {:induction false} AroundIsExternal(walk: Walk, dir: Path, active: set<Path>, names: Path, x: Path)
    requires walk.Valid() && walk.fs.IsDir(dir) && Standing(walk, dir, active, names).Some?
    ensures active <= Standing(walk, dir, active, names).value.1
    ensures x in Standing(walk, dir, active, names).value.1 - active ==> walk.fs.IsDir(x) && !(walk.root <= x)
    decreases names
  {
    if names == [] {
    } else {
      EnteredShrinks(walk, dir, active, names[0]);
      var (q, active') := Entered(walk, dir, active, names[0]).value;
      AroundIsExternal(walk, q, active', names[1..], x);
    }
  }

  lemma {:induction false} StandingAppend(walk: Walk, dir: Path, active: set<Path>, a: Path, b: Path)
    requires walk.Valid() && walk.fs.IsDir(dir) && Standing(walk, dir, active, a).Some?
    ensures var (q, around) := Standing(walk, dir, active, a).value;
            Standing(walk, dir, active, a + b) == Standing(walk, q, around, b)
    decreases a
  {
    if a == [] {
      assert a + b == b;
    } else {
      assert (a + b)[1..] == a[1..] + b;
      EnteredShrinks(walk, dir, active, a[0]);
      var (q, active') := Entered(walk, dir, active, a[0]).value;
      StandingAppend(walk, q, active', a[1..], b);
    }
  }

  /** A link the walk gets to is captured as a link exactly when one of the reasons holds there, the last of
      them for the external directories really entered on the way. */
  lemma LinkKeptIff(walk: Walk, dir: Path, logical: Path, active: set<Path>, above: Path, n: Name)
    requires walk.Valid() && walk.fs.IsDir(dir) && Standing(walk, dir, active, above).Some?
    requires var p := Standing(walk, dir, active, above).value.0 + [n]; walk.fs.Has(p) && walk.fs.nodes[p].Link?
    ensures var (at, around) := Standing(walk, dir, active, above).value;
            walk.LinkEntry(at + [n], logical + (above + [n])) in walk.Directory(dir, logical, active)
            <==> KeptAsLink(walk, at + [n], around)
  {
    hide KeptAsLink, CapturedAt, walk.Directory;
    var (at, around) := Standing(walk, dir, active, above).value;
    var rel := above + [n];
    var c := walk.LinkEntry(at + [n], logical + rel);
    LinkCapturedIff(walk, dir, logical, active, above, n);
    if KeptAsLink(walk, at + [n], around) {
      WalkCaptures(walk, dir, logical, active, rel, c);
    }
    if c in walk.Directory(dir, logical, active) {
      WalkCollects(walk, dir, logical, active, c);
      var other :| CapturedAt(walk, dir, logical, active, other, c);
      CapturedPath(walk, dir, logical, active, other, c);
      assert other == (logical + other)[|logical|..] == (logical + rel)[|logical|..] == rel;
    }
  }

  lemma LinkCapturedIff(walk: Walk, dir: Path, logical: Path, active: set<Path>, above: Path, n: Name)
    requires walk.Valid() && walk.fs.IsDir(dir) && Standing(walk, dir, active, above).Some?
    requires var p := Standing(walk, dir, active, above).value.0 + [n]; walk.fs.Has(p) && walk.fs.nodes[p].Link?
    ensures var (at, around) := Standing(walk, dir, active, above).value;
            CapturedAt(walk, dir, logical, active, above + [n], walk.LinkEntry(at + [n], logical + (above + [n])))
            <==> KeptAsLink(walk, at + [n], around)
  {
    hide KeptAsLink, Standing;
    var rel := above + [n];
    assert rel[..|rel| - 1] == above && rel[|rel| - 1] == n;
  }

  lemma CapturedPath(walk: Walk, dir: Path, logical: Path, active: set<Path>, rel: Path, c: Captured)
    requires walk.Valid() && walk.fs.IsDir(dir) && CapturedAt(walk, dir, logical, active, rel, c)
    ensures c.path == logical + rel
  {
    hide Standing, KeptAsLink;
  }

  /** A link that is not kept is replaced by what it leads to: the content of the file, or everything the
      walk captures in the directory. */
  lemma LinkMaterialized(walk: Walk, dir: Path, logical: Path, active: set<Path>, above: Path, n: Name, c: Captured)
    requires walk.Valid() && walk.fs.IsDir(dir) && Standing(walk, dir, active, above).Some?
    requires var (at, around) := Standing(walk, dir, active, above).value;
             && walk.fs.Has(at + [n]) && walk.fs.nodes[at + [n]].Link? && !KeptAsLink(walk, at + [n], around)
    ensures var (at, around) := Standing(walk, dir, active, above).value;
            var q, l := walk.fs.nodes[at + [n]].resolved.value, logical + (above + [n]);
            && walk.fs.Has(q)
            && (walk.fs.nodes[q].File? ==> walk.FileEntry(q, l) in walk.Directory(dir, logical, active))
            && (walk.fs.IsDir(q) && c in walk.Directory(q, l, around + {q}) ==>
                  c in walk.Directory(dir, logical, active))
            && (walk.fs.nodes[q].File? || walk.fs.IsDir(q))
  {
    hide walk.Directory;
    var (at, around) := Standing(walk, dir, active, above).value;
    var p, rel := at + [n], above + [n];
    assert walk.fs.Sound(p) && walk.fs.ListsAll(at);
    var q := walk.fs.nodes[p].resolved.value;
    assert rel[..|rel| - 1] == above && rel[|rel| - 1] == n;
    if walk.fs.nodes[q].File? {
      var own := walk.FileEntry(q, logical + rel);
      assert CapturedAt(walk, dir, logical, active, rel, own);
      WalkCaptures(walk, dir, logical, active, rel, own);
    } else if c in walk.Directory(q, logical + rel, around + {q}) {
      WalkCollects(walk, q, logical + rel, around + {q}, c);
      var below :| CapturedAt(walk, q, logical + rel, around + {q}, below, c);
      EnteredExternal(walk, dir, active, above, n);
      CapturedThrough(walk, dir, logical, active, rel, below, c);
      WalkCaptures(walk, dir, logical, active, rel + below, c);
    }
  }

  lemma EnteredExternal(walk: Walk, dir: Path, active: set<Path>, above: Path, n: Name)
    requires walk.Valid() && walk.fs.IsDir(dir) && Standing(walk, dir, active, above).Some?
    requires var at := Standing(walk, dir, active, above).value.0;
             && n in walk.fs.listing[at] && Entered(walk, at, Standing(walk, dir, active, above).value.1, n).Some?
    ensures var (at, around) := Standing(walk, dir, active, above).value;
            Standing(walk, dir, active, above + [n]) == Entered(walk, at, around, n)
  {
    var (at, around) := Standing(walk, dir, active, above).value;
    StandingAppend(walk, dir, active, above, [n]);
    var (q, active') := Entered(walk, at, around, n).value;
    var one: Path := [n];
    assert one[1..] == [];
  }

  lemma CapturedThrough(walk: Walk, dir: Path, logical: Path, active: set<Path>, rel: Path, below: Path, c: Captured)
    requires walk.Valid() && walk.fs.IsDir(dir) && Standing(walk, dir, active, rel).Some?
    requires var (q, around) := Standing(walk, dir, active, rel).value;
             CapturedAt(walk, q, logical + rel, around, below, c)
    ensures CapturedAt(walk, dir, logical, active, rel + below, c)
  {
    hide OwnEntry;
    var full, last := rel + below, |below| - 1;
    StandingAppend(walk, dir, active, rel, below[..last]);
    assert full[..|full| - 1] == rel + below[..last];
    assert logical + full == logical + rel + below;
  }
}
