/** Capture, encoding and restore of a directory taken together. */
module DirectorySnapshot {
  import opened Common
  import opened Encodings
  import Capture = DirectoryCapture
  import Codec = DirectoryCodec
  import Ordering
  import Paths
  import Restore = DirectoryRestore
  import Stage = DirectoryStage
  import Trees

  type Path = Paths.Path
  type Entry = Codec.Entry

  function PathText(e: Entry): (text: Bytes) {
    e.path
  }

  /** `entries.sort_by(|a, b| a.rel.cmp(&b.rel))` */
  function Sort(es: seq<Entry>): (r: seq<Entry>)
    ensures multiset(r) == multiset(es)
  {
    Ordering.SortBy(PathText, es)
  }

  /** The components of an entry's path. */
  function PathOf(e: Entry): (p: Path) {
    if Paths.Parse(e.path).Ok? then Paths.Parse(e.path).value else []
  }

  /** No entry's path equals or is above another's. */
  predicate Apart(es: seq<Entry>) {
    forall i, j :: 0 <= i < j < |es| ==> !Paths.Clash(PathOf(es[i]), PathOf(es[j]))
  }

  /** Apartness does not depend on the order. */
  lemma SortApart(es: seq<Entry>)
    requires Apart(es)
    ensures Apart(Sort(es)) && Ordering.DistinctKeys(PathText, Sort(es)) && Ordering.SortedBy(PathText, Sort(es))
  {
    assert Ordering.DistinctKeys(PathText, es) by {
      forall i, j | 0 <= i < j < |es| ensures PathText(es[i]) != PathText(es[j]) {
        assert !Paths.Clash(PathOf(es[i]), PathOf(es[j]));
      }
    }
    Ordering.SortByDistinct(PathText, es);
    Ordering.SortBySorted(PathText, es);
    Ordering.Members(Sort(es), es);
    var r := Sort(es);
    forall i, j | 0 <= i < j < |r| ensures !Paths.Clash(PathOf(r[i]), PathOf(r[j])) {
      assert r[i] in r && r[j] in r && PathText(r[i]) != PathText(r[j]);
      MembersApart(es, r[i], r[j]);
    }
  }

  lemma MembersApart(es: seq<Entry>, x: Entry, y: Entry)
    requires Apart(es) && x in es && y in es && x != y
    ensures !Paths.Clash(PathOf(x), PathOf(y))
  {
    hide PathOf;
    var i :| 0 <= i < |es| && es[i] == x;
    var j :| 0 <= j < |es| && es[j] == y;
    if i < j {
      assert !Paths.Clash(PathOf(es[i]), PathOf(es[j]));
    } else {
      assert !Paths.Clash(PathOf(es[j]), PathOf(es[i]));
    }
  }

  // ----- The snapshot of a directory ---------------------------------------------

  function Stored(c: Capture.Captured): (e: Entry) {
    Codec.Entry(c.kind, c.mode, Paths.Join(c.path), c.content)
  }

  function StoredAll(cs: seq<Capture.Captured>): (es: seq<Entry>) {
    seq(|cs|, i requires 0 <= i < |cs| => Stored(cs[i]))
  }

  ghost function Collected(walk: Capture.Walk): (cs: seq<Capture.Captured>)
    requires walk.Valid() && walk.fs.IsDir(walk.root)
  {
    walk.Directory(walk.root, [], {})
  }

  ghost function Entries(walk: Capture.Walk): (es: seq<Entry>)
    requires walk.Valid() && walk.fs.IsDir(walk.root)
  {
    Sort(StoredAll(Collected(walk)))
  }

  /** The blob of a directory: `write_directory_blob`. */
  ghost function Snapshot(walk: Capture.Walk): (blob: Bytes)
    requires walk.Valid() && walk.fs.IsDir(walk.root)
  {
    Codec.Encode(Codec.V2, Entries(walk))
  }

  lemma StoredPath(walk: Capture.Walk, c: Capture.Captured)
    requires walk.Valid() && walk.fs.IsDir(walk.root) && c in Collected(walk)
    ensures Paths.Parse(Stored(c).path) == Ok(c.path) && PathOf(Stored(c)) == c.path && c.path != []
  {
    Capture.NamesNormal(walk, walk.root, [], {}, c);
    Paths.ParseJoin(c.path);
  }

  lemma EntriesMember(walk: Capture.Walk, e: Entry)
    requires walk.Valid() && walk.fs.IsDir(walk.root)
    ensures e in Entries(walk) <==> exists c :: c in Collected(walk) && e == Stored(c)
  {
    var cs := Collected(walk);
    Ordering.Members(Entries(walk), StoredAll(cs));
    if e in StoredAll(cs) {
      var i :| 0 <= i < |cs| && StoredAll(cs)[i] == e;
      assert cs[i] in cs;
    }
    if c :| c in cs && e == Stored(c) {
      var i :| 0 <= i < |cs| && cs[i] == c;
      assert StoredAll(cs)[i] == e;
    }
  }

  lemma EntriesApart(walk: Capture.Walk)
    requires walk.Valid() && walk.fs.IsDir(walk.root)
    ensures Apart(Entries(walk))
    ensures Ordering.DistinctKeys(PathText, Entries(walk)) && Ordering.SortedBy(PathText, Entries(walk))
  {
    var cs := Collected(walk);
    Capture.WalkApart(walk, walk.root, [], {});
    forall i, j | 0 <= i < j < |cs|
      ensures !Paths.Clash(PathOf(StoredAll(cs)[i]), PathOf(StoredAll(cs)[j]))
    {
      StoredPath(walk, cs[i]);
      StoredPath(walk, cs[j]);
    }
    SortApart(StoredAll(cs));
  }

  /** The blob does not depend on the order in which any directory was listed, in either mode. */
  lemma SnapshotIgnoresListing(w: Capture.Walk, u: Capture.Walk)
    requires Capture.SameNodes(w, u) && w.fs.IsDir(w.root)
    ensures u.fs.IsDir(u.root) && Snapshot(w) == Snapshot(u)
  {
    Capture.ListingIrrelevant(w, u, w.root, [], {});
    EntriesApart(w);
    EntriesApart(u);
    forall e ensures e in Entries(w) <==> e in Entries(u) {
      EntriesMember(w, e);
      EntriesMember(u, e);
    }
    Ordering.OneSortedOrder(PathText, Entries(w), Entries(u));
  }

  // ----- Round trips -------------------------------------------------------------

  /** The codec can store every collected entry and the operating system can create it: paths and
      link targets are UTF-8 without NUL and at most 1 MiB long, and targets are not empty. */
  ghost predicate Representable(walk: Capture.Walk)
    requires walk.Valid() && walk.fs.IsDir(walk.root)
  {
    forall c :: c in Collected(walk) ==>
      Codec.Storable(Codec.V2, Stored(c)) && Stage.Creatable(Stage.ItemOf(Stored(c)))
  }

  lemma EntriesStorable(walk: Capture.Walk)
    requires walk.Valid() && walk.fs.IsDir(walk.root) && Representable(walk)
    ensures Codec.AllStorable(Codec.V2, Entries(walk))
    ensures forall x :: x in Stage.ItemsOf(Codec.V2, Entries(walk)) ==> Stage.Creatable(x)
  {
    hide Codec.Storable, Stage.Creatable, Entries;
    var es := Entries(walk);
    forall e | e in es
      ensures Codec.Storable(Codec.V2, e) && Paths.Parse(e.path).Ok? && Stage.Creatable(Stage.ItemOf(e))
    {
      EntriesMember(walk, e);
      var c :| c in Collected(walk) && e == Stored(c);
      StoredPath(walk, c);
    }
    forall x | x in Stage.ItemsOf(Codec.V2, es) ensures Stage.Creatable(x) {
      var i :| 0 <= i < |es| && Stage.ItemsOf(Codec.V2, es)[i] == x;
      assert es[i] in es;
    }
  }

  lemma EntriesConflictFree(walk: Capture.Walk)
    requires walk.Valid() && walk.fs.IsDir(walk.root) && Codec.AllStorable(Codec.V2, Entries(walk))
    ensures Stage.ConflictFree(Stage.ItemsOf(Codec.V2, Entries(walk)))
  {
    hide Entries;
    EntriesApart(walk);
    var es := Entries(walk);
    var items := Stage.ItemsOf(Codec.V2, es);
    forall i, j | 0 <= i < j < |items| ensures !Paths.Clash(items[i].path, items[j].path) {
      assert es[i] in es && es[j] in es;
      assert items[i].path == PathOf(es[i]) && items[j].path == PathOf(es[j]);
    }
  }

  /** Whatever the links of the filesystem and in either mode, a representable capture restores, and
      to exactly the collected entries. */
  lemma SnapshotRestores(walk: Capture.Walk)
    requires walk.Valid() && walk.fs.IsDir(walk.root) && Representable(walk)
    ensures Codec.AllStorable(Codec.V2, Entries(walk))
    ensures Restore.Restored(Snapshot(walk)).Ok?
    ensures Trees.Shows(Restore.Restored(Snapshot(walk)).value, Stage.ItemsOf(Codec.V2, Entries(walk)))
  {
    hide *;
    EntriesStorable(walk);
    EntriesConflictFree(walk);
    Restore.RestoreIff(Codec.V2, Entries(walk));
    assert Snapshot(walk) == Codec.Encode(Codec.V2, Entries(walk)) by {
      SnapshotIsEncoded(walk);
    }
  }

  lemma SnapshotIsEncoded(walk: Capture.Walk)
    requires walk.Valid() && walk.fs.IsDir(walk.root)
    ensures Snapshot(walk) == Codec.Encode(Codec.V2, Entries(walk))
  {
  }

  // ----- Preserve mode -----------------------------------------------------------

  /** What a node restores to: a file keeps its content and its permission bits, owner-read added. */
  function RestoredNode(fs: Capture.Fs, p: Path): (node: Stage.Node) {
    if p !in fs.nodes then Trees.Dir
    else match fs.nodes[p]
      case File(mode, content) => Trees.File(Stage.FileData(Max(mode % 0x200, 0x100), content))
      case Link(target, _) => Trees.Link(target)
      case _ => Trees.Dir
  }

  /** Some file or link is at `p` or below it. */
  ghost predicate HoldsLeaf(fs: Capture.Fs, p: Path) {
    exists rest :: Capture.IsLeaf(fs, p + rest)
  }

  /** The item a leaf below the root is restored as. */
  function LeafItem(walk: Capture.Walk, rel: Path): (x: Stage.Item) {
    Trees.Placed(rel, RestoredNode(walk.fs, walk.root + rel))
  }

  lemma LeafItemOf(walk: Capture.Walk, rel: Path, c: Capture.Captured)
    requires walk.Valid() && walk.fs.IsDir(walk.root) && c in Collected(walk)
    requires Capture.Records(walk, walk.root, [], rel, c)
    ensures Paths.Parse(Stored(c).path).Ok? && Stage.ItemOf(Stored(c)) == LeafItem(walk, rel)
  {
    StoredPath(walk, c);
    assert [] + rel == rel;
  }

  /** The restored items are exactly the leaves below the root. */
  lemma PreserveItems(walk: Capture.Walk, x: Stage.Item)
    requires walk.Valid() && walk.fs.IsDir(walk.root) && walk.mode.Preserve?
    requires Codec.AllStorable(Codec.V2, Entries(walk))
    ensures x in Stage.ItemsOf(Codec.V2, Entries(walk)) <==>
            x.path != [] && Capture.IsLeaf(walk.fs, walk.root + x.path) && x == LeafItem(walk, x.path)
  {
    hide Entries, Codec.Storable, Collected, RestoredNode, Stage.RestoredMode, Paths.Parse, Paths.Join;
    var es := Entries(walk);
    var items := Stage.ItemsOf(Codec.V2, es);
    if x in items {
      var i :| 0 <= i < |es| && items[i] == x;
      assert es[i] in es;
      EntriesMember(walk, es[i]);
      var c :| c in Collected(walk) && es[i] == Stored(c);
      CollectedIs(walk);
      Capture.PreserveCollects(walk, walk.root, [], {}, c);
      var rel :| Capture.Records(walk, walk.root, [], rel, c);
      LeafItemOf(walk, rel, c);
    }
    if x.path != [] && Capture.IsLeaf(walk.fs, walk.root + x.path) && x == LeafItem(walk, x.path) {
      var rel := x.path;
      assert [] + rel == rel;
      var c := Capture.LeafEntry(walk, walk.root + rel, rel);
      assert Capture.Records(walk, walk.root, [], rel, c);
      CollectedIs(walk);
      Capture.PreserveRecorded(walk, walk.root, [], {}, rel, c);
      LeafItemOf(walk, rel, c);
      EntriesMember(walk, Stored(c));
      var i :| 0 <= i < |es| && es[i] == Stored(c);
      assert items[i] == x;
    }
  }

  lemma CollectedIs(walk: Capture.Walk)
    requires walk.Valid() && walk.fs.IsDir(walk.root)
    ensures Collected(walk) == walk.Directory(walk.root, [], {})
  {
  }

  lemma PreserveCovers(walk: Capture.Walk, items: seq<Stage.Item>, rel: Path)
    requires walk.fs.IsDir(walk.root)
    requires forall x :: x in items <==>
               x.path != [] && Capture.IsLeaf(walk.fs, walk.root + x.path) && x == LeafItem(walk, x.path)
    ensures rel != [] ==> (Trees.Covers(items, rel) <==> HoldsLeaf(walk.fs, walk.root + rel))
  {
    hide RestoredNode;
    Trees.CoversIff(items, rel);
    if x :| x in items && Trees.LeadsTo(rel, x.path) {
      assert x.path == rel + x.path[|rel|..];
      assert walk.root + x.path == walk.root + rel + x.path[|rel|..];
      assert Capture.IsLeaf(walk.fs, walk.root + rel + x.path[|rel|..]);
    }
    if rel != [] && HoldsLeaf(walk.fs, walk.root + rel) {
      var rest :| Capture.IsLeaf(walk.fs, walk.root + rel + rest);
      var x := LeafItem(walk, rel + rest);
      assert walk.root + (rel + rest) == walk.root + rel + rest;
      assert x in items && Trees.LeadsTo(rel, x.path);
    }
  }

  /** Capturing a directory in Preserve mode and restoring it gives back the same files and links at
      the same places, and exactly the directories that hold one of them. */
  lemma PreserveRoundTrip(walk: Capture.Walk, rel: Path)
    requires walk.Valid() && walk.fs.IsDir(walk.root) && walk.mode.Preserve? && Representable(walk)
    ensures Restore.Restored(Snapshot(walk)).Ok?
    ensures var t := Restore.Restored(Snapshot(walk)).value;
            && (rel in t <==> rel == [] || HoldsLeaf(walk.fs, walk.root + rel))
            && (rel in t ==> t[rel] == RestoredNode(walk.fs, walk.root + rel))
  {
    hide Snapshot, Entries, Restore.Restored, Representable, RestoredNode, Codec.Storable;
    SnapshotRestores(walk);
    EntriesConflictFree(walk);
    var items := Stage.ItemsOf(Codec.V2, Entries(walk));
    Stage.ItemsAreLeaves(Codec.V2, Entries(walk));
    forall x ensures x in items <==>
                     x.path != [] && Capture.IsLeaf(walk.fs, walk.root + x.path) && x == LeafItem(walk, x.path)
    {
      PreserveItems(walk, x);
    }
    PreserveCovers(walk, items, rel);
    PreserveNode(walk, items, rel);
  }

  lemma PreserveNode(walk: Capture.Walk, items: seq<Stage.Item>, rel: Path)
    requires walk.fs.IsDir(walk.root) && Stage.AllLeaves(items) && Stage.ConflictFree(items)
    requires forall x :: x in items <==>
               x.path != [] && Capture.IsLeaf(walk.fs, walk.root + x.path) && x == LeafItem(walk, x.path)
    ensures Trees.NodeAt(items, rel) == RestoredNode(walk.fs, walk.root + rel)
  {
    Stage.DirAtIff(items, rel);
    assert walk.root + [] == walk.root;
    if rel != [] && Capture.IsLeaf(walk.fs, walk.root + rel) {
      assert LeafItem(walk, rel) in items;
      Stage.NodeAtItem(items, LeafItem(walk, rel));
    }
  }

  // ----- The writer --------------------------------------------------------------

  /** Some entry's path is too long for its length field. */
  predicate PathTooLong(es: seq<Entry>) {
    exists i :: 0 <= i < |es| && |es[i].path| > U32_MAX
  }

  /** `write_directory_blob`: the walk, the sort, then each entry's fields in order. */
  method WriteDirectoryBlob(walk: Capture.Walk) returns (r: Result<Bytes>)
    requires walk.Valid() && walk.fs.IsDir(walk.root)
    ensures r == if PathTooLong(Entries(walk)) then Err else Ok(Snapshot(walk))
  {
    var collector := new Capture.Collector(walk);
    collector.CollectDirectory(walk.root, []);
    var es := Sort(StoredAll(collector.entries));
    assert [] + Collected(walk) == Collected(walk);
    r := WriteEntries(es);
  }

  method WriteEntries(es: seq<Entry>) returns (r: Result<Bytes>)
    ensures r == if PathTooLong(es) then Err else Ok(Codec.Encode(Codec.V2, es))
  {
    hide Codec.Magic;
    var out := Codec.Magic(Codec.V2);
    for i := 0 to |es|
      invariant out + Codec.EncodeEntries(Codec.V2, es[i..]) == Codec.Encode(Codec.V2, es)
      invariant forall j :: 0 <= j < i ==> |es[j].path| <= U32_MAX
    {
      var e := es[i];
      if |e.path| > U32_MAX {
        return Err;
      }
      ghost var rest := Codec.EncodeEntries(Codec.V2, es[i + 1..]);
      assert es[i..][1..] == es[i + 1..];
      Codec.Assoc(out, Codec.EncodeEntry(Codec.V2, e), rest);
      ghost var before := out;
      out := out + [Codec.KindByte(e.kind)];
      out := out + ToLe(|e.path|, 4);
      out := out + ToLe(e.mode, 4);
      out := out + ToLe(|e.content|, 8);
      out := out + e.path;
      out := out + e.content;
      EntryWritten(before, e);
    }
    assert es[|es|..] == [];
    assert out + [] == out;
    r := Ok(out);
  }

  lemma EntryWritten(before: Bytes, e: Entry)
    ensures before + [Codec.KindByte(e.kind)] + ToLe(|e.path|, 4) + ToLe(e.mode, 4) + ToLe(|e.content|, 8)
            + e.path + e.content == before + Codec.EncodeEntry(Codec.V2, e)
  {
  }
}
