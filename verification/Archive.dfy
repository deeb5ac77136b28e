/** Resolving the declared entries of an archive into its sorted members. */
module Archive {
  import opened Common
  import Capture = DirectoryCapture
  import Paths

  type Path = Paths.Path
  type Name = Paths.Name
  type Fs = Capture.Fs

  const BACKSLASH: byte := 92

  datatype Kind = File | Directory | Symlink | Tree

  /** A declared entry; `source` is the position of its source in the workspace. */
  datatype Entry = Entry(kind: Kind, path: Bytes, source: Option<Path>, target: Option<Bytes>,
                         mode: nat, directoryMode: nat, ownerId: nat, groupId: nat, mtime: nat)

  datatype Source = FromFile(position: Path) | Empty | ToTarget(target: Bytes)

  /** A resolved member; its path is in normal form. */
  datatype Member = Member(path: Path, source: Source, mode: nat, ownerId: nat, groupId: nat, mtime: nat)

  type Members = map<Path, Member>

  // ----- Member paths ------------------------------------------------------------

  /** What `normalize_archive_path` accepts, and the components it keeps. */
  function Normalize(path: Bytes, allowEmpty: bool): (r: Result<Path>)
    ensures r.Ok? ==> Paths.IsNormal(r.value) && (r.value == [] ==> allowEmpty)
  {
    if BACKSLASH in path then Err
    else match Paths.Parse(path)
      case Err => Err
      case Ok(parts) => if parts == [] && !allowEmpty then Err else Ok(parts)
  }

  lemma TrailingSlash(s: Bytes)
    requires s != []
    ensures Paths.Parse(s + [Paths.SLASH]) == Paths.Parse(s)
  {
    Paths.SplitJoint(s, []);
    assert s + [Paths.SLASH] + [] == s + [Paths.SLASH];
    assert Paths.Split([]) == [[]];
    Paths.SignificantAppend(Paths.Split(s), [[]]);
    assert Paths.Significant([[]]) == [];
  }

  /** `normalize_archive_path` */
  method NormalizeArchivePath(path: Bytes, allowEmpty: bool) returns (r: Result<Path>)
    ensures r == Normalize(path, allowEmpty)
  {
    if BACKSLASH in path {
      return Err;
    }
    if path != [] && path[0] == Paths.SLASH {
      return Err;
    }
    var trimmed := path;
    while trimmed != [] && trimmed[|trimmed| - 1] == Paths.SLASH
      invariant trimmed <= path && Paths.Parse(trimmed) == Paths.Parse(path)
      decreases |trimmed|
    {
      var shorter := trimmed[..|trimmed| - 1];
      assert trimmed == shorter + [Paths.SLASH];
      assert trimmed[0] == path[0];
      TrailingSlash(shorter);
      trimmed := shorter;
    }
    var parsed := Paths.TryFrom(trimmed);
    if parsed.Err? {
      return Err;
    }
    if parsed.value == [] && !allowEmpty {
      return Err;
    }
    r := parsed;
  }

  // ----- Expanding one entry -----------------------------------------------------

  function MemberAt(e: Entry, path: Path, source: Source): (m: Member) {
    var mode := match source
                case FromFile(_) => e.mode
                case Empty => e.directoryMode
                case ToTarget(_) => 0x1FF;
    Member(path, source, mode, e.ownerId, e.groupId, e.mtime)
  }

  function Append(a: Result<seq<Member>>, b: Result<seq<Member>>): (r: Result<seq<Member>>) {
    if a.Ok? && b.Ok? then Ok(a.value + b.value) else Err
  }

  /** The members a child of a tree contributes; `None` when its name or type is refused. */
  function ChildMember(fs: Fs, e: Entry, p: Path, path: Path, name: Name): (m: Option<Member>)
    requires p in fs.nodes
  {
    if BACKSLASH in name then None
    else match fs.nodes[p]
      case Dir => Some(MemberAt(e, path, Empty))
      case File(_, _) => Some(MemberAt(e, path, FromFile(p)))
      case Link(target, _) => Some(MemberAt(e, path, ToTarget(target)))
      case Special => None
  }

  /** `collect_tree` over the given children of `dir`. */
  ghost function TreeNames(fs: Fs, e: Entry, dir: Path, destination: Path, names: seq<Name>): (r: Result<seq<Member>>)
    requires fs.Valid() && fs.IsDir(dir) && forall n :: n in names ==> n in fs.listing[dir]
    decreases |fs.Below(dir)|, |names|
  {
    if names == [] then Ok([])
    else
      var k := |names| - 1;
      assert names == names[..k] + [names[k]];
      Append(TreeNames(fs, e, dir, destination, names[..k]), TreeChild(fs, e, dir, destination, names[k]))
  }

  ghost function TreeChild(fs: Fs, e: Entry, dir: Path, destination: Path, n: Name): (r: Result<seq<Member>>)
    requires fs.Valid() && fs.IsDir(dir) && n in fs.listing[dir]
    decreases |fs.Below(dir)|, 0
  {
    var p, path := dir + [n], destination + [n];
    assert fs.Has(p);
    match ChildMember(fs, e, p, path, n)
    case None => Err
    case Some(m) =>
      if fs.nodes[p].Dir? then
        Capture.BelowShrinks(fs, dir, n);
        assert fs.IsDir(p);
        Append(Ok([m]), TreeNames(fs, e, p, path, fs.listing[p]))
      else Ok([m])
  }

  /** The members one declared entry stands for, or an error. */
  ghost function Expand(fs: Fs, e: Entry): (r: Result<seq<Member>>)
    requires fs.Valid()
  {
    match e.kind
    case File =>
      var path := Normalize(e.path, false);
      if e.source.None? || e.source.value !in fs.nodes || !fs.nodes[e.source.value].File? || path.Err? then Err
      else Ok([MemberAt(e, path.value, FromFile(e.source.value))])
    case Directory =>
      var path := Normalize(e.path, false);
      if e.source.Some? || path.Err? then Err else Ok([MemberAt(e, path.value, Empty)])
    case Symlink =>
      var path := Normalize(e.path, false);
      if e.source.Some? || e.target.None? || e.target.value == [] || path.Err? then Err
      else Ok([MemberAt(e, path.value, ToTarget(e.target.value))])
    case Tree =>
      var path := Normalize(e.path, true);
      if e.source.None? || !fs.IsDir(e.source.value) || path.Err? then Err
      else
        var top := if path.value == [] then [] else [MemberAt(e, path.value, Empty)];
        Append(Ok(top), TreeNames(fs, e, e.source.value, path.value, fs.listing[e.source.value]))
  }

  // ----- Inserting members -------------------------------------------------------

  /** `insert_entry` for each member in turn: a path declared twice is an error. */
  function Inserted(xs: seq<Member>): (r: Result<Members>) {
    if xs == [] then Ok(map[])
    else
      var n := |xs| - 1;
      match Inserted(xs[..n])
      case Err => Err
      case Ok(m) => if xs[n].path in m then Err else Ok(m[xs[n].path := xs[n]])
  }

  /** No path occurs twice. */
  ghost predicate UniquePaths(bag: multiset<Member>) {
    && (forall x :: x in bag ==> bag[x] == 1)
    && (forall x, y :: x in bag && y in bag && x != y ==> x.path != y.path)
  }

  lemma UniqueAdd(bag: multiset<Member>, x: Member)
    ensures UniquePaths(bag + multiset{x}) <==> UniquePaths(bag) && forall y :: y in bag ==> y.path != x.path
  {
    var all := bag + multiset{x};
    assert x in all;
    if UniquePaths(all) {
      assert all[x] == 1;
      forall y | y in bag ensures bag[y] == 1 && y != x && y.path != x.path {
        assert y in all && all[y] == 1;
      }
      assert forall y :: y in bag ==> y in all;
    }
    if UniquePaths(bag) && (forall y :: y in bag ==> y.path != x.path) {
      forall y | y in all ensures all[y] == 1 && (y == x || y in bag) {}
    }
  }

  /** The map holds the members of the bag under their paths, and nothing else. */
  ghost predicate Maps(m: Members, bag: multiset<Member>) {
    && (forall x :: x in bag ==> x.path in m && m[x.path] == x)
    && (forall p :: p in m ==> m[p] in bag && m[p].path == p)
  }

  /** Inserting succeeds exactly when no path occurs twice, and then maps every path to its member. */
  lemma {:induction false} InsertedIff(xs: seq<Member>)
    ensures Inserted(xs).Ok? <==> UniquePaths(multiset(xs))
    ensures Inserted(xs).Ok? ==> Maps(Inserted(xs).value, multiset(xs))
  {
    if xs == [] {
    } else {
      var n := |xs| - 1;
      assert xs == xs[..n] + [xs[n]];
      var bag := multiset(xs[..n]);
      assert multiset(xs) == bag + multiset{xs[n]};
      InsertedIff(xs[..n]);
      UniqueAdd(bag, xs[n]);
      if Inserted(xs[..n]).Ok? {
        var m := Inserted(xs[..n]).value;
        assert xs[n].path in m <==> exists y :: y in bag && y.path == xs[n].path;
      }
    }
  }

  lemma OneMap(m: Members, n: Members, bag: multiset<Member>)
    requires Maps(m, bag) && Maps(n, bag)
    ensures m == n
  {
    assert forall p :: p in m ==> p in n && n[p] == m[p];
    assert forall p :: p in n ==> p in m;
  }

  // ----- Resolving all entries ---------------------------------------------------

  /** The members of all entries, in declaration order, or an error. */
  ghost function ExpandAll(fs: Fs, entries: seq<Entry>): (r: Result<seq<Member>>)
    requires fs.Valid()
  {
    if entries == [] then Ok([])
    else Append(ExpandAll(fs, entries[..|entries| - 1]), Expand(fs, entries[|entries| - 1]))
  }

  /** `resolve_entries` */
  ghost function Resolve(fs: Fs, entries: seq<Entry>): (r: Result<Members>)
    requires fs.Valid()
  {
    match ExpandAll(fs, entries)
    case Err => Err
    case Ok(xs) => Inserted(xs)
  }

  /** The members of an entry, as a bag. */
  ghost function Bag(fs: Fs, e: Entry): (bag: multiset<Member>)
    requires fs.Valid()
  {
    if Expand(fs, e).Ok? then multiset(Expand(fs, e).value) else multiset{}
  }

  ghost function Bags(fs: Fs, entries: seq<Entry>): (bag: multiset<Member>)
    requires fs.Valid()
  {
    if entries == [] then multiset{} else Bags(fs, entries[..|entries| - 1]) + Bag(fs, entries[|entries| - 1])
  }

  lemma {:induction false} ExpandAllIff(fs: Fs, entries: seq<Entry>)
    requires fs.Valid()
    ensures ExpandAll(fs, entries).Ok? <==> forall e :: e in entries ==> Expand(fs, e).Ok?
    ensures ExpandAll(fs, entries).Ok? ==> multiset(ExpandAll(fs, entries).value) == Bags(fs, entries)
  {
    hide Expand;
    if entries == [] {
    } else {
      var n := |entries| - 1;
      assert entries == entries[..n] + [entries[n]];
      ExpandAllIff(fs, entries[..n]);
    }
  }

  lemma {:induction false} BagsWithout(fs: Fs, entries: seq<Entry>, i: nat)
    requires fs.Valid() && i < |entries|
    ensures Bags(fs, entries) == Bags(fs, entries[..i] + entries[i + 1..]) + Bag(fs, entries[i])
  {
    hide Bag;
    var n := |entries| - 1;
    var rest := entries[..i] + entries[i + 1..];
    if i < n {
      BagsWithout(fs, entries[..n], i);
      assert rest[..n - 1] == entries[..n][..i] + entries[..n][i + 1..];
      assert rest[n - 1] == entries[n];
    } else {
      assert rest == entries[..n];
    }
  }

  lemma WithoutIndex(b: seq<Entry>, i: nat)
    requires i < |b|
    ensures multiset(b) == multiset(b[..i] + b[i + 1..]) + multiset{b[i]}
  {
    assert b == b[..i] + ([b[i]] + b[i + 1..]);
  }

  lemma Cancels(x: multiset<Entry>, y: multiset<Entry>, one: multiset<Entry>)
    requires x + one == y + one
    ensures x == y
  {
    assert x == (x + one) - one && y == (y + one) - one;
  }

  lemma RemoveOne(a: seq<Entry>, b: seq<Entry>) returns (i: nat)
    requires a != [] && multiset(a) == multiset(b)
    ensures i < |b| && b[i] == a[|a| - 1]
    ensures multiset(a[..|a| - 1]) == multiset(b[..i] + b[i + 1..])
  {
    var n := |a| - 1;
    WithoutIndex(a, n);
    assert a[..n] + a[n + 1..] == a[..n];
    assert a[n] in multiset(b);
    i :| 0 <= i < |b| && b[i] == a[n];
    WithoutIndex(b, i);
    Cancels(multiset(a[..n]), multiset(b[..i] + b[i + 1..]), multiset{a[n]});
  }

  lemma {:induction false} BagsPermute(fs: Fs, a: seq<Entry>, b: seq<Entry>)
    requires fs.Valid() && multiset(a) == multiset(b)
    ensures Bags(fs, a) == Bags(fs, b)
    decreases |a|
  {
    hide Bag;
    if a == [] {
      assert |multiset(b)| == 0;
    } else {
      var i := RemoveOne(a, b);
      BagsWithout(fs, b, i);
      BagsPermute(fs, a[..|a| - 1], b[..i] + b[i + 1..]);
    }
  }

  /** Declaring the same entries in another order gives the same outcome and the same members. */
  lemma DeclarationOrderIrrelevant(fs: Fs, a: seq<Entry>, b: seq<Entry>)
    requires fs.Valid() && multiset(a) == multiset(b)
    ensures Resolve(fs, a) == Resolve(fs, b)
  {
    hide Expand, Inserted, UniquePaths, Maps;
    ExpandAllIff(fs, a);
    ExpandAllIff(fs, b);
    forall e ensures e in a <==> e in b {
      assert e in a <==> e in multiset(a);
      assert e in b <==> e in multiset(b);
    }
    BagsPermute(fs, a, b);
    if ExpandAll(fs, a).Ok? {
      var xs, ys := ExpandAll(fs, a).value, ExpandAll(fs, b).value;
      InsertedIff(xs);
      InsertedIff(ys);
      if Inserted(xs).Ok? {
        OneMap(Inserted(xs).value, Inserted(ys).value, multiset(xs));
      }
    }
  }

  /** Resolving fails exactly when an entry is invalid or two members share a path. */
  lemma ResolvesIff(fs: Fs, entries: seq<Entry>)
    requires fs.Valid()
    ensures Resolve(fs, entries).Ok? <==>
            (forall e :: e in entries ==> Expand(fs, e).Ok?) && UniquePaths(Bags(fs, entries))
    ensures Resolve(fs, entries).Ok? ==> Maps(Resolve(fs, entries).value, Bags(fs, entries))
  {
    hide Expand, Inserted, UniquePaths, Maps, Bags;
    ExpandAllIff(fs, entries);
    if ExpandAll(fs, entries).Ok? {
      InsertedIff(ExpandAll(fs, entries).value);
    }
  }

  // ----- Keys --------------------------------------------------------------------

  predicate ProperPaths(xs: seq<Member>) {
    forall x :: x in xs ==> Paths.IsNormal(x.path) && x.path != []
  }

  lemma {:induction false} TreePathsProper(fs: Fs, e: Entry, dir: Path, destination: Path, names: seq<Name>)
    requires fs.Valid() && fs.IsDir(dir) && Paths.IsNormal(destination)
    requires forall n :: n in names ==> n in fs.listing[dir]
    ensures TreeNames(fs, e, dir, destination, names).Ok? ==>
              ProperPaths(TreeNames(fs, e, dir, destination, names).value)
    decreases |fs.Below(dir)|, |names|
  {
    if names == [] {
    } else {
      var k := |names| - 1;
      assert names == names[..k] + [names[k]];
      TreePathsProper(fs, e, dir, destination, names[..k]);
      var p, path := dir + [names[k]], destination + [names[k]];
      assert fs.Has(p) && fs.Sound(p);
      if fs.nodes[p].Dir? {
        Capture.BelowShrinks(fs, dir, names[k]);
        assert fs.IsDir(p);
        TreePathsProper(fs, e, p, path, fs.listing[p]);
      }
    }
  }

  lemma ExpandProper(fs: Fs, e: Entry)
    requires fs.Valid() && Expand(fs, e).Ok?
    ensures ProperPaths(Expand(fs, e).value)
  {
    if e.kind.Tree? {
      TreePathsProper(fs, e, e.source.value, Normalize(e.path, true).value, fs.listing[e.source.value]);
    }
  }

  lemma {:induction false} ExpandAllProper(fs: Fs, entries: seq<Entry>)
    requires fs.Valid() && ExpandAll(fs, entries).Ok?
    ensures ProperPaths(ExpandAll(fs, entries).value)
  {
    hide Expand;
    if entries == [] {
    } else {
      ExpandAllProper(fs, entries[..|entries| - 1]);
      ExpandProper(fs, entries[|entries| - 1]);
    }
  }

  /** Every key of a resolved archive is a relative path in normal form and names its own member. */
  lemma KeysAreNormal(fs: Fs, entries: seq<Entry>, p: Path)
    requires fs.Valid() && Resolve(fs, entries).Ok? && p in Resolve(fs, entries).value
    ensures Paths.IsNormal(p) && p != [] && Resolve(fs, entries).value[p].path == p
  {
    hide Expand, Inserted;
    var xs := ExpandAll(fs, entries).value;
    InsertedIff(xs);
    ExpandAllProper(fs, entries);
    assert Resolve(fs, entries).value[p] in multiset(xs);
  }

  // ----- What an entry declares, read off the filesystem -------------------------

  /** `m` records the node at `p` under `path`, with the modes, owner, group and time of the entry. */
  predicate MemberFor(fs: Fs, e: Entry, p: Path, path: Path, m: Member) {
    && p in fs.nodes && m.path == path && m.ownerId == e.ownerId && m.groupId == e.groupId && m.mtime == e.mtime
    && match fs.nodes[p]
       case Dir => m.source == Empty && m.mode == e.directoryMode
       case File(_, _) => m.source == FromFile(p) && m.mode == e.mode
       case Link(target, _) => m.source == ToTarget(target) && m.mode == 0x1FF
       case Special => false
  }

  /** `m` records what stands at `rel` below `dir`. */
  predicate Stands(fs: Fs, e: Entry, dir: Path, destination: Path, rel: Path, m: Member) {
    rel != [] && MemberFor(fs, e, dir + rel, destination + rel, m)
  }

  /** What stands at `rel` below `dir`, if anything, can be archived. */
  predicate Archivable(fs: Fs, dir: Path, rel: Path) {
    rel != [] && fs.Has(dir + rel) ==> !fs.nodes[dir + rel].Special? && BACKSLASH !in rel[|rel| - 1]
  }

  lemma ChildStands(fs: Fs, e: Entry, dir: Path, destination: Path, n: Name, m: Member)
    requires fs.Valid() && fs.IsDir(dir) && n in fs.listing[dir] && TreeChild(fs, e, dir, destination, n).Ok?
    ensures fs.Has(dir + [n])
    ensures m in TreeChild(fs, e, dir, destination, n).value <==>
            || MemberFor(fs, e, dir + [n], destination + [n], m)
            || (&& fs.IsDir(dir + [n])
                && TreeNames(fs, e, dir + [n], destination + [n], fs.listing[dir + [n]]).Ok?
                && m in TreeNames(fs, e, dir + [n], destination + [n], fs.listing[dir + [n]]).value)
  {
    hide TreeNames;
    assert fs.Has(dir + [n]);
  }

  lemma ChildOkIff(fs: Fs, e: Entry, dir: Path, destination: Path, n: Name)
    requires fs.Valid() && fs.IsDir(dir) && n in fs.listing[dir]
    ensures fs.Has(dir + [n])
    ensures TreeChild(fs, e, dir, destination, n).Ok? <==>
            && Archivable(fs, dir, [n])
            && (fs.IsDir(dir + [n]) ==> TreeNames(fs, e, dir + [n], destination + [n], fs.listing[dir + [n]]).Ok?)
  {
    hide TreeNames;
    assert fs.Has(dir + [n]);
  }

  lemma {:induction false} NamesOkIff(fs: Fs, e: Entry, dir: Path, destination: Path, names: seq<Name>)
    requires fs.Valid() && fs.IsDir(dir) && forall n :: n in names ==> n in fs.listing[dir]
    ensures TreeNames(fs, e, dir, destination, names).Ok? <==>
            forall n :: n in names ==> TreeChild(fs, e, dir, destination, n).Ok?
    decreases names
  {
    hide TreeChild;
    if names == [] {
    } else {
      var k := |names| - 1;
      assert names == names[..k] + [names[k]];
      NamesOkIff(fs, e, dir, destination, names[..k]);
    }
  }

  lemma {:induction false} NamesMember(fs: Fs, e: Entry, dir: Path, destination: Path, names: seq<Name>, m: Member)
    requires fs.Valid() && fs.IsDir(dir) && forall n :: n in names ==> n in fs.listing[dir]
    requires TreeNames(fs, e, dir, destination, names).Ok?
    ensures forall n :: n in names ==> TreeChild(fs, e, dir, destination, n).Ok?
    ensures m in TreeNames(fs, e, dir, destination, names).value <==>
            exists n :: n in names && m in TreeChild(fs, e, dir, destination, n).value
    decreases names
  {
    hide TreeChild;
    NamesOkIff(fs, e, dir, destination, names);
    if names == [] {
    } else {
      var k := |names| - 1;
      assert names == names[..k] + [names[k]];
      NamesMember(fs, e, dir, destination, names[..k], m);
      assert names[k] in names;
    }
  }

  /** What is below a directory is listed in it, and below a directory of it or in it itself. */
  lemma FirstName(fs: Fs, dir: Path, rel: Path)
    requires fs.Valid() && fs.IsDir(dir) && rel != [] && fs.Has(dir + rel)
    ensures rel[0] in fs.listing[dir] && fs.Has(dir + [rel[0]])
    ensures |rel| > 1 ==> fs.IsDir(dir + [rel[0]])
    ensures dir + rel == dir + [rel[0]] + rel[1..]
  {
    var p := dir + [rel[0]];
    assert fs.ListsAll(dir);
    assert dir + rel == p + rel[1..] && (dir + rel)[..|dir| + 1] == p;
    if |rel| > 1 {
      Capture.AncestorsAreDirs(fs, dir + rel, |dir| + 1);
      assert fs.Has(p);
    } else {
      assert dir + rel == p;
    }
  }

  /** A tree collects exactly what stands below its directory, at every depth. */
  lemma {:induction false} TreeMembers(fs: Fs, e: Entry, dir: Path, destination: Path, m: Member)
    requires fs.Valid() && fs.IsDir(dir) && TreeNames(fs, e, dir, destination, fs.listing[dir]).Ok?
    ensures m in TreeNames(fs, e, dir, destination, fs.listing[dir]).value <==>
            exists rel :: Stands(fs, e, dir, destination, rel, m)
    decreases |fs.Below(dir)|
  {
    hide TreeNames, TreeChild, MemberFor;
    NamesMember(fs, e, dir, destination, fs.listing[dir], m);
    if m in TreeNames(fs, e, dir, destination, fs.listing[dir]).value {
      var n :| n in fs.listing[dir] && m in TreeChild(fs, e, dir, destination, n).value;
      var rel := TreeStands(fs, e, dir, destination, n, m);
    }
    if rel :| Stands(fs, e, dir, destination, rel, m) {
      StandsCollected(fs, e, dir, destination, rel, m);
    }
  }

  lemma TreeStands(fs: Fs, e: Entry, dir: Path, destination: Path, n: Name, m: Member) returns (rel: Path)
    requires fs.Valid() && fs.IsDir(dir) && n in fs.listing[dir] && TreeChild(fs, e, dir, destination, n).Ok?
    requires m in TreeChild(fs, e, dir, destination, n).value
    ensures Stands(fs, e, dir, destination, rel, m)
    decreases |fs.Below(dir)|, 0
  {
    hide TreeNames, TreeChild, MemberFor;
    ChildStands(fs, e, dir, destination, n, m);
    var p, path := dir + [n], destination + [n];
    if MemberFor(fs, e, p, path, m) {
      rel := [n];
    } else {
      Capture.BelowShrinks(fs, dir, n);
      TreeMembers(fs, e, p, path, m);
      var below :| Stands(fs, e, p, path, below, m);
      rel := [n] + below;
      assert dir + rel == p + below && destination + rel == path + below;
    }
  }

  lemma StandsCollected(fs: Fs, e: Entry, dir: Path, destination: Path, rel: Path, m: Member)
    requires fs.Valid() && fs.IsDir(dir) && TreeNames(fs, e, dir, destination, fs.listing[dir]).Ok?
    requires Stands(fs, e, dir, destination, rel, m)
    ensures exists n :: n in fs.listing[dir] && TreeChild(fs, e, dir, destination, n).Ok?
                        && m in TreeChild(fs, e, dir, destination, n).value
    decreases |fs.Below(dir)|, 0
  {
    hide TreeNames, TreeChild;
    assert fs.Has(dir + rel);
    FirstName(fs, dir, rel);
    var n := rel[0];
    var p, path := dir + [n], destination + [n];
    NamesMember(fs, e, dir, destination, fs.listing[dir], m);
    ChildOkIff(fs, e, dir, destination, n);
    ChildStands(fs, e, dir, destination, n, m);
    if |rel| == 1 {
      assert rel == [n];
    } else {
      assert destination + rel == path + rel[1..];
      assert Stands(fs, e, p, path, rel[1..], m);
      Capture.BelowShrinks(fs, dir, n);
      TreeMembers(fs, e, p, path, m);
    }
  }

  /** A tree can be collected exactly when nothing below its directory is special or named with a backslash. */
  lemma {:induction false} TreeOkIff(fs: Fs, e: Entry, dir: Path, destination: Path)
    requires fs.Valid() && fs.IsDir(dir)
    ensures TreeNames(fs, e, dir, destination, fs.listing[dir]).Ok? <==> forall rel :: Archivable(fs, dir, rel)
    decreases |fs.Below(dir)|
  {
    hide TreeNames, TreeChild, Archivable;
    NamesOkIff(fs, e, dir, destination, fs.listing[dir]);
    if TreeNames(fs, e, dir, destination, fs.listing[dir]).Ok? {
      forall rel ensures Archivable(fs, dir, rel) {
        BelowArchivable(fs, e, dir, destination, rel);
      }
    } else {
      var n :| n in fs.listing[dir] && TreeChild(fs, e, dir, destination, n).Err?;
      var rel := NotArchivable(fs, e, dir, destination, n);
    }
  }

  lemma BelowArchivable(fs: Fs, e: Entry, dir: Path, destination: Path, rel: Path)
    requires fs.Valid() && fs.IsDir(dir)
    requires forall n :: n in fs.listing[dir] ==> TreeChild(fs, e, dir, destination, n).Ok?
    ensures Archivable(fs, dir, rel)
    decreases |fs.Below(dir)|, 0
  {
    hide TreeNames, TreeChild;
    if rel != [] && fs.Has(dir + rel) {
      FirstName(fs, dir, rel);
      var n := rel[0];
      ChildOkIff(fs, e, dir, destination, n);
      if |rel| == 1 {
        assert rel == [n];
      } else {
        Capture.BelowShrinks(fs, dir, n);
        TreeOkIff(fs, e, dir + [n], destination + [n]);
        assert Archivable(fs, dir + [n], rel[1..]);
      }
    }
  }

  lemma NotArchivable(fs: Fs, e: Entry, dir: Path, destination: Path, n: Name) returns (rel: Path)
    requires fs.Valid() && fs.IsDir(dir) && n in fs.listing[dir] && TreeChild(fs, e, dir, destination, n).Err?
    ensures !Archivable(fs, dir, rel)
    decreases |fs.Below(dir)|, 0
  {
    hide TreeNames, TreeChild;
    ChildOkIff(fs, e, dir, destination, n);
    if !Archivable(fs, dir, [n]) {
      rel := [n];
    } else {
      Capture.BelowShrinks(fs, dir, n);
      TreeOkIff(fs, e, dir + [n], destination + [n]);
      var below :| !Archivable(fs, dir + [n], below);
      rel := [n] + below;
      assert dir + rel == dir + [n] + below;
    }
  }

  /** The entry can be expanded: its source is of its kind, its path is normal, and below the directory of a tree
      nothing is in the way. */
  ghost predicate Declarable(fs: Fs, e: Entry) {
    match e.kind
    case File =>
      && e.source.Some? && fs.Has(e.source.value) && fs.nodes[e.source.value].File?
      && Normalize(e.path, false).Ok?
    case Directory => e.source.None? && Normalize(e.path, false).Ok?
    case Symlink => e.source.None? && e.target.Some? && e.target.value != [] && Normalize(e.path, false).Ok?
    case Tree =>
      && e.source.Some? && fs.IsDir(e.source.value) && Normalize(e.path, true).Ok?
      && forall rel :: Archivable(fs, e.source.value, rel)
  }

  /** `m` has this path, source and mode, and the owner, group and time of the entry. */
  predicate Plainly(e: Entry, path: Path, source: Source, mode: nat, m: Member) {
    && m.path == path && m.source == source && m.mode == mode
    && m.ownerId == e.ownerId && m.groupId == e.groupId && m.mtime == e.mtime
  }

  /** `m` is one of the members the entry stands for. */
  ghost predicate Declares(fs: Fs, e: Entry, m: Member)
    requires Declarable(fs, e)
  {
    match e.kind
    case File => Plainly(e, Normalize(e.path, false).value, FromFile(e.source.value), e.mode, m)
    case Directory => Plainly(e, Normalize(e.path, false).value, Empty, e.directoryMode, m)
    case Symlink => Plainly(e, Normalize(e.path, false).value, ToTarget(e.target.value), 0x1FF, m)
    case Tree =>
      var destination := Normalize(e.path, true).value;
      || (destination != [] && Plainly(e, destination, Empty, e.directoryMode, m))
      || exists rel :: Stands(fs, e, e.source.value, destination, rel, m)
  }

  /** An entry expands exactly when it can, and to exactly the members it stands for. */
  lemma ExpandIff(fs: Fs, e: Entry, m: Member)
    requires fs.Valid()
    ensures Expand(fs, e).Ok? <==> Declarable(fs, e)
    ensures Expand(fs, e).Ok? ==> (m in Expand(fs, e).value <==> Declares(fs, e, m))
  {
    hide TreeNames, Normalize, Archivable, Stands;
    if e.kind.Tree? && e.source.Some? && fs.IsDir(e.source.value) && Normalize(e.path, true).Ok? {
      var destination := Normalize(e.path, true).value;
      TreeOkIff(fs, e, e.source.value, destination);
      if TreeNames(fs, e, e.source.value, destination, fs.listing[e.source.value]).Ok? {
        TreeMembers(fs, e, e.source.value, destination, m);
      }
    }
  }

  // ----- Resolution, read off the filesystem -------------------------------------

  predicate PathsDiffer(xs: seq<Member>) {
    forall i, j :: 0 <= i < j < |xs| ==> xs[i].path != xs[j].path
  }

  lemma PathsDifferAppend(a: seq<Member>, b: seq<Member>)
    requires PathsDiffer(a) && PathsDiffer(b) && forall x, y :: x in a && y in b ==> x.path != y.path
    ensures PathsDiffer(a + b)
  {
    var s := a + b;
    forall i, j | 0 <= i < j < |s| ensures s[i].path != s[j].path {
      if i < |a| <= j {
        assert s[i] in a && s[j] in b;
      }
    }
  }

  /** Everything collected for a child is at or below its path. */
  lemma ChildBelow(fs: Fs, e: Entry, dir: Path, destination: Path, n: Name, m: Member)
    requires fs.Valid() && fs.IsDir(dir) && n in fs.listing[dir] && TreeChild(fs, e, dir, destination, n).Ok?
    requires m in TreeChild(fs, e, dir, destination, n).value
    ensures destination + [n] <= m.path
  {
    hide TreeNames, TreeChild, Stands;
    ChildStands(fs, e, dir, destination, n, m);
    if !MemberFor(fs, e, dir + [n], destination + [n], m) {
      TreeMembers(fs, e, dir + [n], destination + [n], m);
      var rel :| Stands(fs, e, dir + [n], destination + [n], rel, m);
      StandsAt(fs, e, dir + [n], destination + [n], rel, m);
    }
  }

  lemma StandsAt(fs: Fs, e: Entry, dir: Path, destination: Path, rel: Path, m: Member)
    requires Stands(fs, e, dir, destination, rel, m)
    ensures rel != [] && m.path == destination + rel
  {
  }

  lemma {:induction false} TreePathsDiffer(fs: Fs, e: Entry, dir: Path, destination: Path, names: seq<Name>)
    requires fs.Valid() && fs.IsDir(dir) && Distinct(names) && forall n :: n in names ==> n in fs.listing[dir]
    requires TreeNames(fs, e, dir, destination, names).Ok?
    ensures PathsDiffer(TreeNames(fs, e, dir, destination, names).value)
    decreases |fs.Below(dir)|, |names|
  {
    hide TreeChild, PathsDiffer;
    if names == [] {
      NoneDiffer();
    } else {
      var k := |names| - 1;
      assert names == names[..k] + [names[k]];
      var a, b := TreeNames(fs, e, dir, destination, names[..k]), TreeChild(fs, e, dir, destination, names[k]);
      TreePathsDiffer(fs, e, dir, destination, names[..k]);
      ChildPathsDiffer(fs, e, dir, destination, names[k]);
      forall x, y | x in a.value && y in b.value ensures x.path != y.path {
        NamesMember(fs, e, dir, destination, names[..k], x);
        var n :| n in names[..k] && x in TreeChild(fs, e, dir, destination, n).value;
        ChildBelow(fs, e, dir, destination, n, x);
        ChildBelow(fs, e, dir, destination, names[k], y);
        assert x.path[|destination|] == n && y.path[|destination|] == names[k];
      }
      PathsDifferAppend(a.value, b.value);
    }
  }

  lemma NoneDiffer()
    ensures PathsDiffer([])
  {
  }

  lemma ChildPathsDiffer(fs: Fs, e: Entry, dir: Path, destination: Path, n: Name)
    requires fs.Valid() && fs.IsDir(dir) && n in fs.listing[dir] && TreeChild(fs, e, dir, destination, n).Ok?
    ensures PathsDiffer(TreeChild(fs, e, dir, destination, n).value)
    decreases |fs.Below(dir)|, 0
  {
    hide TreeNames, Stands;
    var p, path := dir + [n], destination + [n];
    assert fs.Has(p);
    if fs.nodes[p].Dir? {
      Capture.BelowShrinks(fs, dir, n);
      assert fs.IsDir(p) && fs.ListsAll(p);
      TreePathsDiffer(fs, e, p, path, fs.listing[p]);
      var top, below := ChildMember(fs, e, p, path, n).value, TreeNames(fs, e, p, path, fs.listing[p]).value;
      forall y | y in below ensures top.path != y.path {
        TreeMembers(fs, e, p, path, y);
        var rel :| Stands(fs, e, p, path, rel, y);
        StandsAt(fs, e, p, path, rel, y);
      }
      PathsDifferAppend([top], below);
    }
  }

  /** An entry never declares a path twice by itself. */
  lemma ExpandPathsDiffer(fs: Fs, e: Entry)
    requires fs.Valid() && Expand(fs, e).Ok?
    ensures PathsDiffer(Expand(fs, e).value)
  {
    hide TreeNames, Normalize, Stands;
    if e.kind.Tree? {
      var dir, destination := e.source.value, Normalize(e.path, true).value;
      assert fs.ListsAll(dir);
      TreePathsDiffer(fs, e, dir, destination, fs.listing[dir]);
      var top := if destination == [] then [] else [MemberAt(e, destination, Empty)];
      var below := TreeNames(fs, e, dir, destination, fs.listing[dir]).value;
      forall x, y | x in top && y in below ensures x.path != y.path {
        TreeMembers(fs, e, dir, destination, y);
        var rel :| Stands(fs, e, dir, destination, rel, y);
        StandsAt(fs, e, dir, destination, rel, y);
      }
      PathsDifferAppend(top, below);
    }
  }

  lemma {:induction false} DifferIsUnique(xs: seq<Member>)
    requires PathsDiffer(xs)
    ensures UniquePaths(multiset(xs))
  {
    if xs == [] {
    } else {
      var n := |xs| - 1;
      assert xs == xs[..n] + [xs[n]];
      DifferIsUnique(xs[..n]);
      UniqueAdd(multiset(xs[..n]), xs[n]);
    }
  }

  /** Two bags together hold no path twice exactly when neither does and they share none. */
  lemma UniqueUnion(a: multiset<Member>, b: multiset<Member>)
    ensures UniquePaths(a + b) <==>
            UniquePaths(a) && UniquePaths(b) && forall x, y :: x in a && y in b ==> x.path != y.path
  {
    if UniquePaths(a + b) {
      forall x | x in a ensures a[x] == 1 && x !in b {
        assert x in a + b;
      }
      forall y | y in b ensures b[y] == 1 {
        assert y in a + b;
      }
      forall x, y | x in a && y in b ensures x.path != y.path {
        assert x in a + b && y in a + b;
      }
      assert UniquePaths(a) by {
        assert forall x :: x in a ==> x in a + b;
      }
      assert UniquePaths(b) by {
        assert forall x :: x in b ==> x in a + b;
      }
    }
  }

  /** Entries `i` and `j` declare no path in common. */
  ghost predicate NoSharedPath(fs: Fs, entries: seq<Entry>, i: nat, j: nat)
    requires i < |entries| && j < |entries| && Declarable(fs, entries[i]) && Declarable(fs, entries[j])
  {
    forall x, y :: Declares(fs, entries[i], x) && Declares(fs, entries[j], y) ==> x.path != y.path
  }

  ghost predicate AllDeclarable(fs: Fs, entries: seq<Entry>) {
    forall i :: 0 <= i < |entries| ==> Declarable(fs, entries[i])
  }

  ghost predicate NoPathTwice(fs: Fs, entries: seq<Entry>)
    requires AllDeclarable(fs, entries)
  {
    forall i, j :: 0 <= i < j < |entries| ==> NoSharedPath(fs, entries, i, j)
  }

  lemma BagIff(fs: Fs, e: Entry, m: Member)
    requires fs.Valid() && Declarable(fs, e)
    ensures m in Bag(fs, e) <==> Declares(fs, e, m)
    ensures UniquePaths(Bag(fs, e))
  {
    hide Expand, Declares, Declarable, UniquePaths;
    ExpandIff(fs, e, m);
    ExpandPathsDiffer(fs, e);
    DifferIsUnique(Expand(fs, e).value);
  }

  lemma {:induction false} BagsMember(fs: Fs, entries: seq<Entry>, m: Member)
    requires fs.Valid() && AllDeclarable(fs, entries)
    ensures m in Bags(fs, entries) <==> exists i :: 0 <= i < |entries| && Declares(fs, entries[i], m)
  {
    hide Declares, Declarable, Bag;
    if entries == [] {
    } else {
      var n := |entries| - 1;
      var front := entries[..n];
      BagsMember(fs, front, m);
      BagIff(fs, entries[n], m);
      if i :| 0 <= i < n && Declares(fs, front[i], m) {
        assert Declares(fs, entries[i], m);
      }
      if i :| 0 <= i < |entries| && Declares(fs, entries[i], m) {
        assert i < n ==> Declares(fs, front[i], m);
      }
    }
  }

  lemma {:induction false} BagsUniqueIff(fs: Fs, entries: seq<Entry>)
    requires fs.Valid() && AllDeclarable(fs, entries)
    ensures UniquePaths(Bags(fs, entries)) <==> NoPathTwice(fs, entries)
  {
    hide Declares, Declarable, Bag, UniquePaths, NoSharedPath;
    if entries == [] {
      NothingTwice();
    } else {
      var n := |entries| - 1;
      var front := entries[..n];
      BagsUniqueIff(fs, front);
      UniqueUnion(Bags(fs, front), Bag(fs, entries[n]));
      LastShares(fs, entries);
      forall i, j | 0 <= i < j < n ensures NoSharedPath(fs, front, i, j) <==> NoSharedPath(fs, entries, i, j) {
        SameShared(fs, entries, i, j);
      }
    }
  }

  lemma NothingTwice()
    ensures UniquePaths(multiset{})
  {
  }

  lemma SameShared(fs: Fs, entries: seq<Entry>, i: nat, j: nat)
    requires i < j < |entries| - 1 && AllDeclarable(fs, entries)
    ensures NoSharedPath(fs, entries[..|entries| - 1], i, j) <==> NoSharedPath(fs, entries, i, j)
  {
    hide Declares, Declarable;
  }

  /** The last entry shares no path with the bag of the others exactly when it shares none with any of them. */
  lemma LastShares(fs: Fs, entries: seq<Entry>)
    requires fs.Valid() && AllDeclarable(fs, entries) && entries != []
    ensures UniquePaths(Bag(fs, entries[|entries| - 1]))
    ensures var n := |entries| - 1;
            (forall x, y :: x in Bags(fs, entries[..n]) && y in Bag(fs, entries[n]) ==> x.path != y.path)
            <==> forall i :: 0 <= i < n ==> NoSharedPath(fs, entries, i, n)
  {
    hide Declares, Declarable, Bag, Bags, UniquePaths;
    var n := |entries| - 1;
    var front := entries[..n];
    BagIff(fs, entries[n], Member([], Empty, 0, 0, 0, 0));
    if forall x, y :: x in Bags(fs, front) && y in Bag(fs, entries[n]) ==> x.path != y.path {
      forall i, x, y | 0 <= i < n && Declares(fs, entries[i], x) && Declares(fs, entries[n], y)
        ensures x.path != y.path {
        assert Declares(fs, front[i], x);
        BagsMember(fs, front, x);
        BagIff(fs, entries[n], y);
      }
    }
    if forall i :: 0 <= i < n ==> NoSharedPath(fs, entries, i, n) {
      forall x, y | x in Bags(fs, front) && y in Bag(fs, entries[n]) ensures x.path != y.path {
        BagsMember(fs, front, x);
        var i :| 0 <= i < n && Declares(fs, front[i], x);
        BagIff(fs, entries[n], y);
        assert NoSharedPath(fs, entries, i, n) && Declares(fs, entries[i], x);
      }
    }
  }

  /** Resolution succeeds exactly when every entry can be expanded and no two entries declare one path; the result
      then has exactly the declared members, each under its path. */
  lemma ResolvedIff(fs: Fs, entries: seq<Entry>)
    requires fs.Valid()
    ensures Resolve(fs, entries).Ok? <==> AllDeclarable(fs, entries) && NoPathTwice(fs, entries)
    ensures Resolve(fs, entries).Ok? ==>
              forall m: Member :: (m.path in Resolve(fs, entries).value && Resolve(fs, entries).value[m.path] == m)
                          <==> exists i :: 0 <= i < |entries| && Declares(fs, entries[i], m)
  {
    hide Resolve, Declares, Declarable, NoPathTwice, Expand, Bags, UniquePaths;
    ResolvesIff(fs, entries);
    forall e | e in entries ensures Expand(fs, e).Ok? <==> Declarable(fs, e) {
      ExpandIff(fs, e, Member([], Empty, 0, 0, 0, 0));
    }
    assert forall i :: 0 <= i < |entries| ==> entries[i] in entries;
    if AllDeclarable(fs, entries) {
      BagsUniqueIff(fs, entries);
    }
    if Resolve(fs, entries).Ok? {
      forall m: Member ensures (m.path in Resolve(fs, entries).value && Resolve(fs, entries).value[m.path] == m)
                       <==> exists i :: 0 <= i < |entries| && Declares(fs, entries[i], m) {
        BagsMember(fs, entries, m);
      }
    }
  }

  // ----- Member paths, both ways -------------------------------------------------

  /** Every normal path without a backslash is accepted as itself, with a trailing slash or without, and a
      backslash, a leading slash or a `..` between slashes is refused. */
  lemma NormalizeIff(path: Bytes, allowEmpty: bool)
    ensures Normalize(path, allowEmpty).Err? <==>
            || BACKSLASH in path || (path != [] && path[0] == Paths.SLASH)
            || [Paths.DOT, Paths.DOT] in Paths.Split(path)
            || (!allowEmpty && forall i :: 0 <= i < |Paths.Split(path)| ==>
                                 Paths.Split(path)[i] == [] || Paths.Split(path)[i] == [Paths.DOT])
  {
    hide Paths.Split, Paths.Significant;
    Paths.ParseErrIff(path);
    if Paths.Parse(path).Ok? {
      Paths.ParseEmptyIff(path);
    }
  }

  lemma NormalizeNormal(p: Path)
    requires Paths.IsNormal(p) && p != [] && BACKSLASH !in Paths.Join(p)
    ensures Normalize(Paths.Join(p), false) == Ok(p)
  {
    hide Paths.Join, Paths.Parse;
    Paths.ParseJoin(p);
  }

  // ----- The resolver ------------------------------------------------------------

  lemma {:induction false} InsertedFails(xs: seq<Member>, n: nat)
    requires n <= |xs| && Inserted(xs[..n]).Err?
    ensures Inserted(xs).Err?
  {
    if n < |xs| {
      assert xs[..|xs| - 1][..n] == xs[..n];
      InsertedFails(xs[..|xs| - 1], n);
    } else {
      assert xs[..n] == xs;
    }
  }

  /** Inserting the members of `r` after `before`: on success they were all inserted, and failure means
      that `r` is an error or that its members cannot all be inserted. */
  ghost predicate Filled(before: seq<Member>, r: Result<seq<Member>>, ok: bool, done: seq<Member>, resolved: Members) {
    && (ok ==> r.Ok? && done == before + r.value && Inserted(done) == Ok(resolved))
    && (!ok ==> r.Err? || Inserted(before + r.value).Err?)
  }

  lemma FilledThen(before: seq<Member>, first: Result<seq<Member>>, second: Result<seq<Member>>,
                   ok: bool, done: seq<Member>, resolved: Members)
    requires first.Ok? && Filled(before + first.value, second, ok, done, resolved)
    ensures Filled(before, Append(first, second), ok, done, resolved)
  {
    if second.Ok? {
      assert before + (first.value + second.value) == (before + first.value) + second.value;
    }
  }

  lemma FilledNever(before: seq<Member>, first: Result<seq<Member>>, second: Result<seq<Member>>,
                    done: seq<Member>, resolved: Members)
    requires Filled(before, first, false, done, resolved)
    ensures Filled(before, Append(first, second), false, done, resolved)
  {
    if first.Ok? && second.Ok? {
      var all := before + (first.value + second.value);
      assert all[..|before + first.value|] == before + first.value;
      InsertedFails(all, |before + first.value|);
    }
  }

  lemma {:induction false} TreeNeverFilled(fs: Fs, e: Entry, dir: Path, destination: Path, names: seq<Name>, i: nat,
                                           before: seq<Member>, done: seq<Member>, resolved: Members)
    requires fs.Valid() && fs.IsDir(dir) && i <= |names| && forall n :: n in names ==> n in fs.listing[dir]
    requires Filled(before, TreeNames(fs, e, dir, destination, names[..i]), false, done, resolved)
    ensures Filled(before, TreeNames(fs, e, dir, destination, names), false, done, resolved)
    decreases |names|
  {
    hide Filled, TreeChild;
    if i < |names| {
      var k := |names| - 1;
      assert names == names[..k] + [names[k]];
      assert names[..k][..i] == names[..i];
      TreeNeverFilled(fs, e, dir, destination, names[..k], i, before, done, resolved);
      FilledNever(before, TreeNames(fs, e, dir, destination, names[..k]),
                  TreeChild(fs, e, dir, destination, names[k]), done, resolved);
    } else {
      assert names[..i] == names;
    }
  }

  /** The map being filled; `done` is what was inserted so far, in order. */
  class Resolver {
    const fs: Fs
    var resolved: Members
    ghost var done: seq<Member>

    ghost predicate Valid()
      reads this
    {
      fs.Valid() && Inserted(done) == Ok(resolved)
    }

    constructor (fs: Fs)
      requires fs.Valid()
      ensures this.fs == fs && Valid() && done == []
    {
      this.fs := fs;
      resolved := map[];
      done := [];
    }

    /** `insert_entry` */
    method InsertEntry(x: Member) returns (ok: bool)
      requires Valid()
      modifies this
      ensures Filled(old(done), Ok([x]), ok, done, resolved)
      ensures !ok ==> resolved == old(resolved) && done == old(done)
    {
      assert (done + [x])[..|done|] == done;
      if x.path in resolved {
        return false;
      }
      resolved := resolved[x.path := x];
      done := done + [x];
      ok := true;
    }

    /** `collect_tree` */
    method CollectTree(e: Entry, dir: Path, destination: Path) returns (ok: bool)
      requires Valid() && fs.IsDir(dir)
      modifies this
      ensures Filled(old(done), TreeNames(fs, e, dir, destination, fs.listing[dir]), ok, done, resolved)
      decreases |fs.Below(dir)|, 1
    {
      hide Inserted, TreeChild;
      var names := fs.listing[dir];
      ghost var before := done;
      assert before + [] == before;
      for i := 0 to |names|
        invariant Valid() && Filled(before, TreeNames(fs, e, dir, destination, names[..i]), true, done, resolved)
      {
        assert names[..i + 1][..i] == names[..i];
        ghost var front := TreeNames(fs, e, dir, destination, names[..i]);
        ok := CollectChild(e, dir, destination, names[i]);
        FilledThen(before, front, TreeChild(fs, e, dir, destination, names[i]), ok, done, resolved);
        if !ok {
          TreeNeverFilled(fs, e, dir, destination, names, i + 1, before, done, resolved);
          return;
        }
      }
      assert names[..|names|] == names;
      ok := true;
    }

    method CollectChild(e: Entry, dir: Path, destination: Path, n: Name) returns (ok: bool)
      requires Valid() && fs.IsDir(dir) && n in fs.listing[dir]
      modifies this
      ensures Filled(old(done), TreeChild(fs, e, dir, destination, n), ok, done, resolved)
      decreases |fs.Below(dir)|, 0
    {
      hide Inserted, TreeNames;
      var p, path := dir + [n], destination + [n];
      assert fs.Has(p);
      ghost var before := done;
      var child := ChildMember(fs, e, p, path, n);
      if child.None? {
        return false;
      }
      ok := InsertEntry(child.value);
      if fs.nodes[p].Dir? {
        Capture.BelowShrinks(fs, dir, n);
        assert fs.IsDir(p);
        ghost var inner := TreeNames(fs, e, p, path, fs.listing[p]);
        if !ok {
          FilledNever(before, Ok([child.value]), inner, done, resolved);
          return;
        }
        ok := CollectTree(e, p, path);
        FilledThen(before, Ok([child.value]), inner, ok, done, resolved);
      }
    }

    /** The body of the entry loop of `resolve_entries`. */
    method ResolveEntry(e: Entry) returns (ok: bool)
      requires Valid()
      modifies this
      ensures Filled(old(done), Expand(fs, e), ok, done, resolved)
    {
      hide Inserted, TreeNames, Paths.Parse;
      ghost var before := done;
      match e.kind
      case Tree =>
        if e.source.None? || !fs.IsDir(e.source.value) {
          return false;
        }
        var path := NormalizeArchivePath(e.path, true);
        if path.Err? {
          return false;
        }
        ghost var inner := TreeNames(fs, e, e.source.value, path.value, fs.listing[e.source.value]);
        if path.value == [] {
          assert before + [] == before;
          ok := CollectTree(e, e.source.value, path.value);
          FilledThen(before, Ok([]), inner, ok, done, resolved);
        } else {
          var top := MemberAt(e, path.value, Empty);
          ok := InsertEntry(top);
          if !ok {
            FilledNever(before, Ok([top]), inner, done, resolved);
            return;
          }
          ok := CollectTree(e, e.source.value, path.value);
          FilledThen(before, Ok([top]), inner, ok, done, resolved);
        }
      case File =>
        if e.source.None? || e.source.value !in fs.nodes || !fs.nodes[e.source.value].File? {
          return false;
        }
        var path := NormalizeArchivePath(e.path, false);
        if path.Err? {
          return false;
        }
        ok := InsertEntry(MemberAt(e, path.value, FromFile(e.source.value)));
      case Directory =>
        if e.source.Some? {
          return false;
        }
        var path := NormalizeArchivePath(e.path, false);
        if path.Err? {
          return false;
        }
        ok := InsertEntry(MemberAt(e, path.value, Empty));
      case Symlink =>
        if e.source.Some? || e.target.None? || e.target.value == [] {
          return false;
        }
        var path := NormalizeArchivePath(e.path, false);
        if path.Err? {
          return false;
        }
        ok := InsertEntry(MemberAt(e, path.value, ToTarget(e.target.value)));
    }
  }

  lemma {:induction false} EntriesNeverFilled(fs: Fs, entries: seq<Entry>, i: nat, done: seq<Member>, resolved: Members)
    requires fs.Valid() && i <= |entries| && Filled([], ExpandAll(fs, entries[..i]), false, done, resolved)
    ensures Filled([], ExpandAll(fs, entries), false, done, resolved)
    decreases |entries|
  {
    hide Filled, Expand;
    if i < |entries| {
      var k := |entries| - 1;
      assert entries[..k][..i] == entries[..i];
      EntriesNeverFilled(fs, entries[..k], i, done, resolved);
      FilledNever([], ExpandAll(fs, entries[..k]), Expand(fs, entries[k]), done, resolved);
    } else {
      assert entries[..i] == entries;
    }
  }

  /** `resolve_entries` */
  method ResolveEntries(fs: Fs, entries: seq<Entry>) returns (r: Result<Members>)
    requires fs.Valid()
    ensures r == Resolve(fs, entries)
    ensures r.Ok? <==> AllDeclarable(fs, entries) && NoPathTwice(fs, entries)
    ensures r.Ok? ==> forall m: Member :: (m.path in r.value && r.value[m.path] == m) <==>
                        exists i :: 0 <= i < |entries| && Declares(fs, entries[i], m)
  {
    hide Inserted, Expand, Declares, AllDeclarable, NoPathTwice;
    ResolvedIff(fs, entries);
    var resolver := new Resolver(fs);
    assert resolver.done == [] + [];
    for i := 0 to |entries|
      invariant resolver.fs == fs && resolver.Valid()
      invariant Filled([], ExpandAll(fs, entries[..i]), true, resolver.done, resolver.resolved)
    {
      assert entries[..i + 1][..i] == entries[..i];
      ghost var front := ExpandAll(fs, entries[..i]);
      var ok := resolver.ResolveEntry(entries[i]);
      FilledThen([], front, Expand(fs, entries[i]), ok, resolver.done, resolver.resolved);
      if !ok {
        EntriesNeverFilled(fs, entries, i + 1, resolver.done, resolver.resolved);
        ghost var all := ExpandAll(fs, entries);
        assert all.Ok? ==> [] + all.value == all.value;
        return Err;
      }
    }
    assert entries[..|entries|] == entries;
    ghost var all := ExpandAll(fs, entries);
    assert [] + all.value == all.value;
    r := Ok(resolver.resolved);
  }
}
