/** The digest of a source path taken from a filesystem: `digest_source_path`. */
module SourceDigest {
  import opened Common
  import Capture = DirectoryCapture
  import Codec = DirectoryCodec
  import Encodings
  import InputDigest
  import Ordering
  import Paths
  import Snapshot = DirectorySnapshot
  import Trees

  type Path = Paths.Path
  type Name = Paths.Name
  type Fs = Capture.Fs
  type SpecialFile = InputDigest.SpecialFile

  /** `mode & 0o7000` */
  function SpecialBits(mode: nat): (bits: nat)
    ensures bits <= 0xE00
  {
    mode / 0x200 % 8 * 0x200
  }

  /** A regular file at `rel` below `root` with setuid, setgid or sticky bits. */
  predicate IsSpecial(fs: Fs, root: Path, rel: Path) {
    && rel != [] && root + rel in fs.nodes && fs.nodes[root + rel].File?
    && SpecialBits(fs.nodes[root + rel].mode) != 0
  }

  function SpecialAt(fs: Fs, root: Path, rel: Path): (f: SpecialFile)
    requires IsSpecial(fs, root, rel)
  {
    InputDigest.SpecialFile(Paths.Join(rel), SpecialBits(fs.nodes[root + rel].mode))
  }

  // ----- The worklist ------------------------------------------------------------

  /** Some pending directory is at `rel` or above it. */
  predicate Under(pending: seq<Path>, rel: Path) {
    pending != [] && (Trees.LeadsTo(pending[|pending| - 1], rel) || Under(pending[..|pending| - 1], rel))
  }

  lemma {:induction false} UnderIff(pending: seq<Path>, rel: Path)
    ensures Under(pending, rel) <==> exists r :: r in pending && Trees.LeadsTo(r, rel)
  {
    if pending == [] {
    } else {
      var n := |pending| - 1;
      UnderIff(pending[..n], rel);
      assert pending == pending[..n] + [pending[n]];
    }
  }

  /** The subdirectories of `dir` among `names`. */
  function DirsAmong(fs: Fs, root: Path, dir: Path, names: seq<Name>): (dirs: seq<Path>) {
    if names == [] then []
    else
      var k := |names| - 1;
      var r := dir + [names[k]];
      DirsAmong(fs, root, dir, names[..k]) + if fs.IsDir(root + r) then [r] else []
  }

  /** The files of `dir` with special bits among `names`. */
  function SpecialsAmong(fs: Fs, root: Path, dir: Path, names: seq<Name>): (files: seq<Path>) {
    if names == [] then []
    else
      var k := |names| - 1;
      var r := dir + [names[k]];
      SpecialsAmong(fs, root, dir, names[..k]) + if IsSpecial(fs, root, r) then [r] else []
  }

  lemma {:induction false} DirsMembers(fs: Fs, root: Path, dir: Path, names: seq<Name>)
    ensures forall r :: r in DirsAmong(fs, root, dir, names) <==>
                        exists n :: n in names && r == dir + [n] && fs.IsDir(root + r)
  {
    hide Capture.Fs.IsDir;
    if names == [] {
    } else {
      var k := |names| - 1;
      assert names == names[..k] + [names[k]];
      DirsMembers(fs, root, dir, names[..k]);
    }
  }

  lemma {:induction false} SpecialsMembers(fs: Fs, root: Path, dir: Path, names: seq<Name>)
    ensures forall r :: r in SpecialsAmong(fs, root, dir, names) <==>
                        exists n :: n in names && r == dir + [n] && IsSpecial(fs, root, r)
  {
    hide IsSpecial;
    if names == [] {
    } else {
      var k := |names| - 1;
      assert names == names[..k] + [names[k]];
      SpecialsMembers(fs, root, dir, names[..k]);
    }
  }

  /** No two of them clash. */
  predicate Apart(paths: seq<Path>) {
    forall i, j :: 0 <= i < j < |paths| ==> !Paths.Clash(paths[i], paths[j])
  }

  /** What the worklist loop keeps: pending directories do not nest, and exactly the special files under
      none of them were found. */
  ghost predicate Searching(fs: Fs, root: Path, pending: seq<Path>, found: seq<Path>) {
    && (forall r :: r in pending ==> fs.IsDir(root + r))
    && Apart(pending) && Distinct(found)
    && forall rel :: rel in found <==> IsSpecial(fs, root, rel) && !Under(pending, rel)
  }

  /** The positions still to be visited. */
  ghost function Rest(fs: Fs, root: Path, pending: seq<Path>): (s: set<Path>) {
    set q | q in fs.nodes && root <= q && Under(pending, q[|root|..])
  }

  lemma {:induction false} DirsApart(fs: Fs, root: Path, dir: Path, names: seq<Name>)
    requires Distinct(names)
    ensures Apart(DirsAmong(fs, root, dir, names))
  {
    if names == [] {
    } else {
      var k := |names| - 1;
      DirsApart(fs, root, dir, names[..k]);
      DirsMembers(fs, root, dir, names[..k]);
      var front, r := DirsAmong(fs, root, dir, names[..k]), dir + [names[k]];
      forall i | 0 <= i < |front| ensures !Paths.Clash(front[i], r) {
        assert front[i] in front;
        var n :| n in names[..k] && front[i] == dir + [n];
        assert n != names[k];
        assert front[i][|dir|] != r[|dir|];
      }
    }
  }

  lemma {:induction false} SpecialsDistinct(fs: Fs, root: Path, dir: Path, names: seq<Name>)
    requires Distinct(names)
    ensures Distinct(SpecialsAmong(fs, root, dir, names))
  {
    if names == [] {
    } else {
      var k := |names| - 1;
      SpecialsDistinct(fs, root, dir, names[..k]);
      SpecialsMembers(fs, root, dir, names[..k]);
      var front, r := SpecialsAmong(fs, root, dir, names[..k]), dir + [names[k]];
      forall i | 0 <= i < |front| ensures front[i] != r {
        assert front[i] in front;
        var n :| n in names[..k] && front[i] == dir + [n];
        assert n != names[k];
        assert front[i][|dir|] != r[|dir|];
      }
    }
  }

  /** The worklist after its last directory was read. */
  function Popped(fs: Fs, root: Path, pending: seq<Path>): (r: seq<Path>)
    requires pending != [] && root + pending[|pending| - 1] in fs.listing
  {
    var dir := pending[|pending| - 1];
    pending[..|pending| - 1] + DirsAmong(fs, root, dir, fs.listing[root + dir])
  }

  lemma PoppedUnder(fs: Fs, root: Path, pending: seq<Path>, rel: Path)
    requires pending != [] && root + pending[|pending| - 1] in fs.listing
    ensures var dir := pending[|pending| - 1];
            Under(Popped(fs, root, pending), rel) <==>
            || Under(pending[..|pending| - 1], rel)
            || exists r :: r in DirsAmong(fs, root, dir, fs.listing[root + dir]) && Trees.LeadsTo(r, rel)
  {
    hide DirsAmong;
    UnderIff(Popped(fs, root, pending), rel);
    UnderIff(pending[..|pending| - 1], rel);
  }

  /** Below a directory that was read, a special file is one of its own entries or under a subdirectory. */
  lemma ReadBelow(fs: Fs, root: Path, dir: Path, rel: Path)
    requires fs.Valid() && fs.IsDir(root + dir) && IsSpecial(fs, root, rel) && Trees.LeadsTo(dir, rel)
    ensures fs.ListsAll(root + dir)
    ensures var names := fs.listing[root + dir];
            rel in SpecialsAmong(fs, root, dir, names) <==>
            !exists r :: r in DirsAmong(fs, root, dir, names) && Trees.LeadsTo(r, rel)
  {
    hide DirsAmong, SpecialsAmong;
    assert fs.ListsAll(root + dir);
    DirsMembers(fs, root, dir, fs.listing[root + dir]);
    SpecialsMembers(fs, root, dir, fs.listing[root + dir]);
    assert |rel| == |dir| ==> rel == dir;
    var n, full := rel[|dir|], root + rel;
    var child := dir + [n];
    assert child == rel[..|dir| + 1] && full[..|root| + |dir| + 1] == root + child == root + dir + [n];
    assert fs.Has(full);
    if |rel| == |dir| + 1 {
      assert rel == child && fs.Has(root + dir + [n]) && n in fs.listing[root + dir];
      forall r | r in DirsAmong(fs, root, dir, fs.listing[root + dir]) ensures !Trees.LeadsTo(r, rel) {
        assert r != rel;
      }
    } else {
      Capture.AncestorsAreDirs(fs, full, |root| + |dir| + 1);
      assert fs.Has(root + dir + [n]) && n in fs.listing[root + dir];
      assert child in DirsAmong(fs, root, dir, fs.listing[root + dir]) && Trees.LeadsTo(child, rel);
    }
  }

  lemma PrefixesClash(a: Path, b: Path, c: Path)
    ensures a <= c && b <= c ==> Paths.Clash(a, b)
  {
    assert a <= c ==> a == c[..|a|];
    assert b <= c ==> b == c[..|b|];
  }

  /** No other pending directory leads below this one. */
  lemma FrontApart(pending: seq<Path>, rel: Path)
    requires pending != [] && Apart(pending) && Under(pending[..|pending| - 1], rel)
    ensures !Trees.LeadsTo(pending[|pending| - 1], rel)
  {
    var n := |pending| - 1;
    UnderIff(pending[..n], rel);
    var r :| r in pending[..n] && Trees.LeadsTo(r, rel);
    var i :| 0 <= i < n && pending[..n][i] == r;
    assert !Paths.Clash(pending[i], pending[n]);
    PrefixesClash(r, pending[n], rel);
  }

  lemma PoppedFound(fs: Fs, root: Path, pending: seq<Path>, found: seq<Path>, rel: Path)
    requires fs.Valid() && Searching(fs, root, pending, found) && pending != []
    requires root + pending[|pending| - 1] in fs.listing
    ensures var dir := pending[|pending| - 1];
            rel in found + SpecialsAmong(fs, root, dir, fs.listing[root + dir]) <==>
            IsSpecial(fs, root, rel) && !Under(Popped(fs, root, pending), rel)
  {
    var dir := pending[|pending| - 1];
    var names := fs.listing[root + dir];
    assert dir in pending;
    hide DirsAmong, SpecialsAmong, Popped;
    DirsMembers(fs, root, dir, names);
    SpecialsMembers(fs, root, dir, names);
    PoppedUnder(fs, root, pending, rel);
    assert rel in SpecialsAmong(fs, root, dir, names) ==> Trees.LeadsTo(dir, rel) && IsSpecial(fs, root, rel);
    assert forall r :: r in DirsAmong(fs, root, dir, names) && Trees.LeadsTo(r, rel) ==> Trees.LeadsTo(dir, rel);
    if IsSpecial(fs, root, rel) {
      if Trees.LeadsTo(dir, rel) {
        ReadBelow(fs, root, dir, rel);
      }
      if Under(pending[..|pending| - 1], rel) {
        FrontApart(pending, rel);
      }
    }
  }

  lemma PoppedApart(fs: Fs, root: Path, pending: seq<Path>)
    requires fs.Valid() && Apart(pending) && pending != [] && fs.IsDir(root + pending[|pending| - 1])
    requires root + pending[|pending| - 1] in fs.listing
    ensures Apart(Popped(fs, root, pending))
  {
    var n := |pending| - 1;
    var dir := pending[n];
    assert fs.ListsAll(root + dir);
    var dirs := DirsAmong(fs, root, dir, fs.listing[root + dir]);
    DirsApart(fs, root, dir, fs.listing[root + dir]);
    DirsMembers(fs, root, dir, fs.listing[root + dir]);
    hide DirsAmong;
    var all := Popped(fs, root, pending);
    forall i, j | 0 <= i < j < |all| ensures !Paths.Clash(all[i], all[j]) {
      if i < n && j >= n {
        var r := dirs[j - n];
        assert all[i] == pending[i] && all[j] == r && r in dirs;
        assert !Paths.Clash(pending[i], dir);
        ChildApart(pending[i], dir, r);
      } else if i >= n {
        assert all[i] == dirs[i - n] && all[j] == dirs[j - n];
      } else {
        assert all[i] == pending[i] && all[j] == pending[j];
      }
    }
  }

  lemma ChildApart(p: Path, dir: Path, child: Path)
    requires !Paths.Clash(p, dir) && |child| == |dir| + 1 && dir <= child
    ensures !Paths.Clash(p, child)
  {
  }

  lemma PoppedRest(fs: Fs, root: Path, pending: seq<Path>)
    requires fs.Valid() && Apart(pending) && pending != [] && fs.IsDir(root + pending[|pending| - 1])
    requires root + pending[|pending| - 1] in fs.listing
    ensures |Rest(fs, root, Popped(fs, root, pending))| < |Rest(fs, root, pending)|
  {
    var dir := pending[|pending| - 1];
    var at := root + dir;
    var before, after := Rest(fs, root, pending), Rest(fs, root, Popped(fs, root, pending));
    assert at[|root|..] == dir;
    DirsMembers(fs, root, dir, fs.listing[at]);
    hide DirsAmong;
    forall q | q in after ensures q in before && q != at {
      var rel := q[|root|..];
      PoppedUnder(fs, root, pending, rel);
      if q == at && Under(pending[..|pending| - 1], rel) {
        FrontApart(pending, rel);
      }
    }
    Capture.Subset(after, before, at);
  }

  lemma PoppedSearching(fs: Fs, root: Path, pending: seq<Path>, found: seq<Path>)
    requires fs.Valid() && Searching(fs, root, pending, found) && pending != []
    requires root + pending[|pending| - 1] in fs.listing
    ensures var dir := pending[|pending| - 1];
            Searching(fs, root, Popped(fs, root, pending), found + SpecialsAmong(fs, root, dir, fs.listing[root + dir]))
  {
    var dir := pending[|pending| - 1];
    assert dir in pending;
    assert fs.ListsAll(root + dir);
    var more := SpecialsAmong(fs, root, dir, fs.listing[root + dir]);
    DirsMembers(fs, root, dir, fs.listing[root + dir]);
    SpecialsMembers(fs, root, dir, fs.listing[root + dir]);
    hide DirsAmong, SpecialsAmong;
    forall rel ensures rel in found + more <==> IsSpecial(fs, root, rel) && !Under(Popped(fs, root, pending), rel) {
      PoppedFound(fs, root, pending, found, rel);
    }
    PoppedApart(fs, root, pending);
    SpecialsDistinct(fs, root, dir, fs.listing[root + dir]);
    var all := found + more;
    forall i, j | 0 <= i < j < |all| ensures all[i] != all[j] {
      if i < |found| && j >= |found| {
        assert all[i] in found && all[j] in more;
        assert Trees.LeadsTo(dir, all[j]) && Under(pending, all[j]);
      }
    }
  }

  // ----- special_permission_entries ----------------------------------------------

  function FileText(f: SpecialFile): (text: Bytes) {
    f.path
  }

  /** The list is sorted by path and holds exactly the special files below `root`. */
  ghost predicate IsSpecialList(fs: Fs, root: Path, list: seq<SpecialFile>) {
    && Ordering.SortedBy(FileText, list) && Ordering.DistinctKeys(FileText, list)
    && forall f :: f in list <==> exists rel :: IsSpecial(fs, root, rel) && f == SpecialAt(fs, root, rel)
  }

  /** There is one such list. */
  lemma OneSpecialList(fs: Fs, root: Path, a: seq<SpecialFile>, b: seq<SpecialFile>)
    requires IsSpecialList(fs, root, a) && IsSpecialList(fs, root, b)
    ensures a == b
  {
    Ordering.OneSortedOrder(FileText, a, b);
  }

  /** Names below the root are proper names. */
  lemma {:induction false} BelowIsNormal(fs: Fs, root: Path, rel: Path)
    requires fs.Valid() && fs.Has(root + rel)
    ensures Paths.IsNormal(rel)
  {
    if rel == [] {
    } else {
      assert fs.Sound(root + rel);
      var up := rel[..|rel| - 1];
      assert (root + rel)[..|root + rel| - 1] == root + up && (root + rel)[|root + rel| - 1] == rel[|rel| - 1];
      assert fs.Has(root + up);
      BelowIsNormal(fs, root, up);
      assert rel == up + [rel[|rel| - 1]];
    }
  }

  function FilesAt(fs: Fs, root: Path, found: seq<Path>): (files: seq<SpecialFile>)
    requires forall r :: r in found ==> IsSpecial(fs, root, r)
  {
    seq(|found|, i requires 0 <= i < |found| => assert found[i] in found; SpecialAt(fs, root, found[i]))
  }

  lemma FilesAtMember(fs: Fs, root: Path, found: seq<Path>, f: SpecialFile)
    requires forall r :: r in found <==> IsSpecial(fs, root, r)
    ensures f in FilesAt(fs, root, found) <==> exists rel :: IsSpecial(fs, root, rel) && f == SpecialAt(fs, root, rel)
  {
    hide IsSpecial, Paths.Join, SpecialBits;
    var files := FilesAt(fs, root, found);
    if f in files {
      var i :| 0 <= i < |files| && files[i] == f;
      assert found[i] in found;
    }
    if rel :| IsSpecial(fs, root, rel) && f == SpecialAt(fs, root, rel) {
      var i :| 0 <= i < |found| && found[i] == rel;
      assert files[i] == f;
    }
  }

  lemma FilesAtDistinct(fs: Fs, root: Path, found: seq<Path>)
    requires fs.Valid() && Distinct(found) && forall r :: r in found ==> IsSpecial(fs, root, r)
    ensures Ordering.DistinctKeys(FileText, FilesAt(fs, root, found))
  {
    hide Paths.Join, SpecialBits, fs.Valid;
    var files := FilesAt(fs, root, found);
    forall i, j | 0 <= i < j < |files| ensures FileText(files[i]) != FileText(files[j]) {
      assert found[i] in found && found[j] in found;
      BelowIsNormal(fs, root, found[i]);
      BelowIsNormal(fs, root, found[j]);
      if FileText(files[i]) == FileText(files[j]) {
        Paths.JoinInjective(found[i], found[j]);
      }
    }
  }

  lemma FilesAtList(fs: Fs, root: Path, found: seq<Path>)
    requires fs.Valid() && Distinct(found) && forall r :: r in found <==> IsSpecial(fs, root, r)
    ensures IsSpecialList(fs, root, Ordering.SortBy(FileText, FilesAt(fs, root, found)))
  {
    hide IsSpecial, SpecialAt, FilesAt, fs.Valid, Ordering.SortBy, Ordering.SortedBy, Ordering.DistinctKeys;
    var files := FilesAt(fs, root, found);
    var sorted := Ordering.SortBy(FileText, files);
    FilesAtDistinct(fs, root, found);
    Ordering.SortBySorted(FileText, files);
    Ordering.SortByDistinct(FileText, files);
    Ordering.Members(sorted, files);
    forall f ensures f in sorted <==> exists rel :: IsSpecial(fs, root, rel) && f == SpecialAt(fs, root, rel) {
      FilesAtMember(fs, root, found, f);
    }
  }

  /** `special_permission_entries`: a worklist of directories, each read once. */
  method SpecialPermissionEntries(fs: Fs, root: Path) returns (list: seq<SpecialFile>)
    requires fs.Valid() && fs.IsDir(root)
    ensures IsSpecialList(fs, root, list)
  {
    var pending: seq<Path> := [[]];
    var found: seq<Path> := [];
    assert root + [] == root;
    assert forall rel :: Under(pending, rel) by {
      forall rel ensures Under(pending, rel) {
        assert Trees.LeadsTo([], rel);
      }
    }
    while pending != []
      invariant Searching(fs, root, pending, found)
      decreases |Rest(fs, root, pending)|
    {
      var dir := pending[|pending| - 1];
      assert dir in pending && fs.ListsAll(root + dir);
      PoppedSearching(fs, root, pending, found);
      PoppedRest(fs, root, pending);
      pending, found := ReadDirectory(fs, root, dir, pending[..|pending| - 1], found);
    }
    FilesAtList(fs, root, found);
    list := Ordering.SortBy(FileText, FilesAt(fs, root, found));
  }

  /** The inner loop: subdirectories are pushed, special files are found. */
  method ReadDirectory(fs: Fs, root: Path, dir: Path, pending: seq<Path>, found: seq<Path>)
    returns (pending': seq<Path>, found': seq<Path>)
    requires root + dir in fs.listing
    ensures pending' == pending + DirsAmong(fs, root, dir, fs.listing[root + dir])
    ensures found' == found + SpecialsAmong(fs, root, dir, fs.listing[root + dir])
  {
    hide IsSpecial;
    var names := fs.listing[root + dir];
    pending', found' := pending, found;
    for i := 0 to |names|
      invariant pending' == pending + DirsAmong(fs, root, dir, names[..i])
      invariant found' == found + SpecialsAmong(fs, root, dir, names[..i])
    {
      assert names[..i + 1][..i] == names[..i];
      var rel := dir + [names[i]];
      if fs.IsDir(root + rel) {
        pending' := pending' + [rel];
      }
      if IsSpecial(fs, root, rel) {
        found' := found' + [rel];
      }
    }
    assert names[..|names|] == names;
  }

  // ----- digest_source_path ------------------------------------------------------

  function PreserveWalk(fs: Fs, root: Path): (walk: Capture.Walk) {
    Capture.Walk(fs, root, Capture.Preserve)
  }

  /** `src` is what the digest sees at `p`: permission and special bits and content of a file, the target of
      a link, or the preserved entries of a directory with its special files. */
  ghost predicate SourceAt(fs: Fs, p: Path, src: InputDigest.Source)
    requires fs.Valid()
  {
    && p in fs.nodes
    && match fs.nodes[p]
       case File(mode, content) => src == InputDigest.SourceFile(mode % 0x1000, content)
       case Link(target, _) => src == InputDigest.SourceLink(target)
       case Special => false
       case Dir =>
         && src.SourceDirectory?
         && src.entries == Snapshot.Entries(PreserveWalk(fs, p)) && IsSpecialList(fs, p, src.special)
  }

  /** `digest_source_path`; a position that holds no file, link or directory has no digest here. */
  method DigestSourcePath(hash: Bytes -> Digest, fs: Fs, p: Path) returns (r: Result<Digest>)
    requires fs.Valid()
    ensures r.Ok? ==> exists src :: SourceAt(fs, p, src) && Digestible(src)
                                    && r.value == hash(InputDigest.Preimage(hash, src))
    ensures r.Err? <==>
            || p !in fs.nodes || fs.nodes[p].Special?
            || (fs.nodes[p].Dir? && Snapshot.PathTooLong(Snapshot.Entries(PreserveWalk(fs, p))))
  {
    hide Snapshot.Entries, InputDigest.FileMagic, InputDigest.LinkMagic, InputDigest.SpecialMagic;
    if p !in fs.nodes {
      return Err;
    }
    match fs.nodes[p]
    case Special => return Err;
    case File(mode, content) =>
      ghost var src := InputDigest.SourceFile(mode % 0x1000, content);
      assert SourceAt(fs, p, src);
      var bytes := InputDigest.FileMagic() + (Encodings.ToLe(mode % 0x1000, 4) + content);
      assert bytes == InputDigest.Preimage(hash, src);
      return Ok(hash(bytes));
    case Link(target, _) =>
      ghost var src := InputDigest.SourceLink(target);
      assert SourceAt(fs, p, src);
      var bytes := InputDigest.LinkMagic() + target;
      assert bytes == InputDigest.Preimage(hash, src);
      return Ok(hash(bytes));
    case Dir =>
      var blob := Snapshot.WriteDirectoryBlob(PreserveWalk(fs, p));
      if blob.Err? {
        return Err;
      }
      var special := SpecialPermissionEntries(fs, p);
      ghost var src := InputDigest.SourceDirectory(Snapshot.Entries(PreserveWalk(fs, p)), special);
      assert SourceAt(fs, p, src);
      var bytes := blob.value;
      if special != [] {
        bytes := InputDigest.SpecialMagic()
                 + (hash(blob.value) + InputDigest.EncodePairs(InputDigest.SpecialPairs(special)));
      }
      Snapshot.SnapshotIsEncoded(PreserveWalk(fs, p));
      assert bytes == InputDigest.Preimage(hash, src);
      return Ok(hash(bytes));
  }

  lemma LeafIsStored(w: Capture.Walk, rel: Path)
    requires w.Valid() && w.fs.IsDir(w.root) && w.mode.Preserve?
    requires rel != [] && Capture.IsLeaf(w.fs, w.root + rel)
    ensures Capture.LeafEntry(w, w.root + rel, rel) in Snapshot.Collected(w)
    ensures Snapshot.Stored(Capture.LeafEntry(w, w.root + rel, rel)) in Snapshot.Entries(w)
  {
    hide *;
    var c := Capture.LeafEntry(w, w.root + rel, rel);
    RecordsLeaf(w, rel, c);
    Capture.PreserveRecorded(w, w.root, [], {}, rel, c);
    Snapshot.CollectedIs(w);
    Snapshot.EntriesMember(w, Snapshot.Stored(c));
  }

  lemma RecordsLeaf(w: Capture.Walk, rel: Path, c: Capture.Captured)
    ensures Capture.Records(w, w.root, [], rel, c)
            <==> rel != [] && Capture.IsLeaf(w.fs, w.root + rel) && c == Capture.LeafEntry(w, w.root + rel, rel)
  {
    hide Capture.IsLeaf, Capture.LeafEntry;
    assert [] + rel == rel;
  }

  lemma CollectedIsLeaf(u: Capture.Walk, c: Capture.Captured)
    requires u.Valid() && u.fs.IsDir(u.root) && u.mode.Preserve? && c in Snapshot.Collected(u)
    ensures Capture.IsLeaf(u.fs, u.root + c.path) && c == Capture.LeafEntry(u, u.root + c.path, c.path)
  {
    hide *;
    Snapshot.CollectedIs(u);
    Capture.PreserveCollects(u, u.root, [], {}, c);
    var rel :| Capture.Records(u, u.root, [], rel, c);
    RecordsLeaf(u, rel, c);
    LeafEntryPath(u, u.root + rel, rel);
  }

  lemma LeafEntryPath(w: Capture.Walk, p: Path, logical: Path)
    requires Capture.IsLeaf(w.fs, p)
    ensures Capture.LeafEntry(w, p, logical).path == logical
  {
  }

  /** Directories with the same entries have the same files and links at the same places. */
  lemma LeafCarriesOver(w: Capture.Walk, u: Capture.Walk, rel: Path)
    requires w.Valid() && u.Valid() && w.fs.IsDir(w.root) && u.fs.IsDir(u.root)
    requires w.mode.Preserve? && u.mode.Preserve? && Snapshot.Entries(w) == Snapshot.Entries(u)
    requires rel != [] && Capture.IsLeaf(w.fs, w.root + rel)
    ensures Capture.IsLeaf(u.fs, u.root + rel)
    ensures Capture.LeafEntry(w, w.root + rel, rel) == Capture.LeafEntry(u, u.root + rel, rel)
  {
    hide *;
    var c := Capture.LeafEntry(w, w.root + rel, rel);
    LeafEntryPath(w, w.root + rel, rel);
    LeafIsStored(w, rel);
    Snapshot.EntriesMember(u, Snapshot.Stored(c));
    var d :| d in Snapshot.Collected(u) && Snapshot.Stored(c) == Snapshot.Stored(d);
    Snapshot.StoredPath(w, c);
    Snapshot.StoredPath(u, d);
    StoredKeeps(c, d);
    CollectedIsLeaf(u, d);
  }

  lemma StoredKeeps(c: Capture.Captured, d: Capture.Captured)
    requires Snapshot.Stored(c) == Snapshot.Stored(d) && c.path == d.path
    ensures c == d
  {
  }

  /** The same content and mode bits for files, the same target for links. */
  predicate SameLeaf(a: Capture.Node, b: Capture.Node) {
    match (a, b)
    case (File(mode, content), File(mode', content')) => content == content' && mode % 0x1000 == mode' % 0x1000
    case (Link(target, _), Link(target', _)) => target == target'
    case _ => false
  }

  /** Two source positions look the same to an action: same kind; the same content and mode bits for files, the
      same target for links; for directories such files and links at the same places, and links recorded as
      leading to a directory or not alike. */
  ghost predicate SameSource(fs: Fs, p: Path, fs': Fs, p': Path)
    requires fs.Valid() && fs'.Valid() && p in fs.nodes && p' in fs'.nodes
  {
    match (fs.nodes[p], fs'.nodes[p'])
    case (Dir, Dir) =>
      forall rel :: rel != [] ==>
        && (Capture.IsLeaf(fs, p + rel) <==> Capture.IsLeaf(fs', p' + rel))
        && (Capture.IsLeaf(fs, p + rel) ==>
              && SameLeaf(fs.nodes[p + rel], fs'.nodes[p' + rel])
              && Capture.LeafEntry(PreserveWalk(fs, p), p + rel, rel).kind
                 == Capture.LeafEntry(PreserveWalk(fs', p'), p' + rel, rel).kind)
    case (a, b) => SameLeaf(a, b)
  }

  /** The low nine mode bits and the special bits are the low twelve. */
  lemma ModeBits(mode: nat)
    ensures mode % 0x1000 == SpecialBits(mode) + mode % 0x200
  {
    var q := mode / 0x200;
    assert mode == 0x200 * q + mode % 0x200;
    assert q == 8 * (q / 8) + q % 8;
    assert mode == 0x1000 * (q / 8) + (0x200 * (q % 8) + mode % 0x200);
  }

  /** Leaves with one entry and the same special bits are the same. */
  lemma SameEntrySameLeaf(fs: Fs, p: Path, fs': Fs, p': Path, rel: Path)
    requires rel != [] && Capture.IsLeaf(fs, p + rel) && Capture.IsLeaf(fs', p' + rel)
    requires Capture.LeafEntry(PreserveWalk(fs, p), p + rel, rel)
             == Capture.LeafEntry(PreserveWalk(fs', p'), p' + rel, rel)
    requires IsSpecial(fs, p, rel) <==> IsSpecial(fs', p', rel)
    requires IsSpecial(fs, p, rel) ==> SpecialAt(fs, p, rel) == SpecialAt(fs', p', rel)
    ensures SameLeaf(fs.nodes[p + rel], fs'.nodes[p' + rel])
  {
    hide SpecialBits;
    var a, b := fs.nodes[p + rel], fs'.nodes[p' + rel];
    if a.File? && b.File? {
      ModeBits(a.mode);
      ModeBits(b.mode);
    }
  }

  /** What every operating system gives: names without NUL, and contents whose length fits a u64. */
  ghost predicate Ordinary(fs: Fs) {
    forall p :: fs.Has(p) ==>
      && (forall i :: 0 <= i < |p| ==> 0 !in p[i])
      && (fs.nodes[p].File? ==> |fs.nodes[p].content| <= U64_MAX)
      && (fs.nodes[p].Link? ==> |fs.nodes[p].target| <= U64_MAX)
  }

  /** Every path of a directory fits its length field, as it does whenever the digest succeeds. */
  predicate Digestible(src: InputDigest.Source) {
    src.SourceDirectory? ==> !Snapshot.PathTooLong(src.entries)
  }

  lemma {:induction false} JoinHasNoNul(p: Path)
    requires forall i :: 0 <= i < |p| ==> 0 !in p[i]
    ensures 0 !in Paths.Join(p)
  {
    if |p| <= 1 {
    } else {
      JoinHasNoNul(p[1..]);
    }
  }

  lemma EntrySized(fs: Fs, root: Path, e: Codec.Entry)
    requires fs.Valid() && Ordinary(fs) && fs.IsDir(root)
    requires e in Snapshot.Entries(PreserveWalk(fs, root)) && |e.path| <= U32_MAX
    ensures Codec.Sized(e)
  {
    hide Snapshot.Entries, Snapshot.Collected, Paths.Join, fs.Valid;
    var w := PreserveWalk(fs, root);
    Snapshot.EntriesMember(w, e);
    var c :| c in Snapshot.Collected(w) && e == Snapshot.Stored(c);
    CollectedIsLeaf(w, c);
    assert fs.Has(root + c.path);
  }

  lemma SpecialSized(fs: Fs, root: Path, f: SpecialFile)
    requires Ordinary(fs) && exists rel :: IsSpecial(fs, root, rel) && f == SpecialAt(fs, root, rel)
    ensures 0 !in f.path && f.bits <= U32_MAX
  {
    var rel :| IsSpecial(fs, root, rel) && f == SpecialAt(fs, root, rel);
    var p := root + rel;
    assert fs.Has(p);
    forall i | 0 <= i < |rel| ensures 0 !in rel[i] {
      assert rel[i] == p[|root| + i];
    }
    JoinHasNoNul(rel);
  }

  lemma SourceIsWellFormed(fs: Fs, p: Path, src: InputDigest.Source)
    requires fs.Valid() && Ordinary(fs) && SourceAt(fs, p, src) && Digestible(src)
    ensures InputDigest.WellFormed(src)
  {
    hide Snapshot.Entries, Codec.Sized, Ordinary, IsSpecial, SpecialAt;
    if src.SourceDirectory? {
      forall e | e in src.entries ensures Codec.Sized(e) {
        EntrySized(fs, p, e);
      }
      forall i | 0 <= i < |src.special| ensures 0 !in src.special[i].path && src.special[i].bits <= U32_MAX {
        assert src.special[i] in src.special;
        SpecialSized(fs, p, src.special[i]);
      }
    }
  }

  /** Two sources with one digest look the same, or the hash collides on a pair of byte strings that the
      digests were taken of. */
  lemma SameDigestSameSource(hash: Bytes -> Digest, fs: Fs, p: Path, src: InputDigest.Source,
                             fs': Fs, p': Path, src': InputDigest.Source)
    requires fs.Valid() && fs'.Valid() && SourceAt(fs, p, src) && SourceAt(fs', p', src')
    requires Ordinary(fs) && Ordinary(fs') && Digestible(src) && Digestible(src')
    requires hash(InputDigest.Preimage(hash, src)) == hash(InputDigest.Preimage(hash, src'))
    ensures || SameSource(fs, p, fs', p')
            || Collision(hash, InputDigest.Preimage(hash, src), InputDigest.Preimage(hash, src'))
            || Collision(hash, InputDigest.BlobOf(src), InputDigest.BlobOf(src'))
  {
    hide Snapshot.Entries, InputDigest.Preimage, InputDigest.BlobOf, InputDigest.WellFormed, Ordinary;
    SourceIsWellFormed(fs, p, src);
    SourceIsWellFormed(fs', p', src');
    InputDigest.SameDigestSameSource(hash, src, src');
    if src == src' && src.SourceDirectory? {
      hide SameLeaf, Capture.LeafEntry, Capture.IsLeaf, IsSpecial, SpecialAt;
      forall rel | rel != []
        ensures && (Capture.IsLeaf(fs, p + rel) <==> Capture.IsLeaf(fs', p' + rel))
                && (Capture.IsLeaf(fs, p + rel) ==>
                      && SameLeaf(fs.nodes[p + rel], fs'.nodes[p' + rel])
                      && Capture.LeafEntry(PreserveWalk(fs, p), p + rel, rel).kind
                         == Capture.LeafEntry(PreserveWalk(fs', p'), p' + rel, rel).kind)
      {
        if Capture.IsLeaf(fs', p' + rel) {
          LeafCarriesOver(PreserveWalk(fs', p'), PreserveWalk(fs, p), rel);
        }
        if Capture.IsLeaf(fs, p + rel) {
          LeafCarriesOver(PreserveWalk(fs, p), PreserveWalk(fs', p'), rel);
          SpecialCarriesOver(fs, p, fs', p', src.special, rel);
          SpecialCarriesOver(fs', p', fs, p, src.special, rel);
          SameEntrySameLeaf(fs, p, fs', p', rel);
        }
      }
    }
  }

  /** One list of special files belongs to one set of special files. */
  lemma SpecialCarriesOver(fs: Fs, p: Path, fs': Fs, p': Path, list: seq<SpecialFile>, rel: Path)
    requires fs.Valid() && fs'.Valid() && IsSpecialList(fs, p, list) && IsSpecialList(fs', p', list)
    ensures IsSpecial(fs, p, rel) ==> IsSpecial(fs', p', rel) && SpecialAt(fs, p, rel) == SpecialAt(fs', p', rel)
  {
    hide Paths.Join;
    if IsSpecial(fs, p, rel) {
      var f := SpecialAt(fs, p, rel);
      assert f in list;
      var other :| IsSpecial(fs', p', other) && f == SpecialAt(fs', p', other);
      BelowIsNormal(fs, p, rel);
      BelowIsNormal(fs', p', other);
      Paths.JoinInjective(rel, other);
    }
  }
}
