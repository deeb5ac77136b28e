/** Restoring a directory blob from a stream: `restore_directory_blob_from_reader`, staged path. */
module DirectoryRestore {
  import opened Common
  import opened Encodings
  import Codec = DirectoryCodec
  import Paths
  import Stage = DirectoryStage
  import Trees

  /** A byte stream and what is left of it. */
  class Reader {
    var rest: Bytes

    constructor (bytes: Bytes)
      ensures rest == bytes
    {
      rest := bytes;
    }

    /** `read_exact`; a short stream is drained. */
    method ReadExact(n: nat) returns (r: Option<Bytes>)
      modifies this
      ensures n <= |old(rest)| ==> r == Some(old(rest)[..n]) && rest == old(rest)[n..]
      ensures n > |old(rest)| ==> r == None && rest == []
    {
      if n > |rest| {
        rest := [];
        return None;
      }
      r := Some(rest[..n]);
      rest := rest[n..];
    }

    method ReadLe(k: nat) returns (r: Option<nat>)
      modifies this
      ensures match TakeLe(old(rest), k)
              case Missing => r == None
              case Taken(n, tail) => r == Some(n) && rest == tail
    {
      var raw := ReadExact(k);
      r := if raw.None? then None else Some(FromLe(raw.value));
    }

    /** The header fields, in stream order, after the first byte was seen to exist. */
    method ReadHeader(v: Codec.Version) returns (r: Option<Codec.Header>)
      requires rest != []
      modifies this
      ensures match Codec.DecodeHeader(v, old(rest))
              case NoHeader => r == None
              case GotHeader(h, tail) => r == Some(h) && rest == tail
    {
      var kind := Some(Codec.File);
      if v.V2? {
        kind := Codec.KindFromByte(rest[0]);
        rest := rest[1..];
        if kind.None? {
          return None;
        }
      }
      var pathLen := ReadLe(4);
      if pathLen.None? || pathLen.value > Codec.MAX_PATH {
        return None;
      }
      var mode := ReadLe(4);
      if mode.None? {
        return None;
      }
      var len := ReadLe(8);
      if len.None? {
        return None;
      }
      r := Some(Codec.Header(kind.value, pathLen.value, mode.value, len.value));
    }

    /** `read_streamed_directory_entry` together with reading the entry's content. */
    method NextEntry(v: Codec.Version) returns (r: Codec.Read)
      modifies this
      ensures r == Codec.DecodeEntry(v, old(rest))
      ensures r.Got? ==> rest == r.rest
    {
      if rest == [] {
        return Codec.End;
      }
      var header := ReadHeader(v);
      if header.None? {
        return Codec.Bad;
      }
      var h := header.value;
      ghost var body := rest;
      var path := ReadExact(h.pathLen);
      if path.None? || !IsUtf8(path.value) {
        return Codec.Bad;
      }
      var parsed := Paths.TryFrom(path.value);
      if parsed.Err? || parsed.value == [] {
        return Codec.Bad;
      }
      if !h.kind.File? && h.contentLen > Codec.MAX_PATH {
        return Codec.Bad;
      }
      assert rest == body[h.pathLen..];
      var content := ReadExact(h.contentLen);
      if content.None? || (!h.kind.File? && !IsUtf8(content.value)) {
        return Codec.Bad;
      }
      var e := Codec.Entry(h.kind, h.mode, path.value, content.value);
      HeaderBounds(v, old(rest));
      assert Codec.Storable(v, e);
      r := Codec.Got(e, rest);
    }
  }

  /** The fields of a decoded header fit their widths. */
  lemma HeaderBounds(v: Codec.Version, s: Bytes)
    requires Codec.DecodeHeader(v, s).GotHeader?
    ensures var h := Codec.DecodeHeader(v, s).header;
            h.mode <= U32_MAX && h.contentLen <= U64_MAX && (v.V1? ==> h.kind.File?)
  {
    Widths();
    var s1 := if v.V1? then s else s[1..];
    var s2 := TakeLe(s1, 4).rest;
    TakeIsToLe(s2, 4);
    TakeIsToLe(TakeLe(s2, 4).rest, 8);
  }

  /** A private tree next to the destination: `directory_stage::Tree`. */
  class StagedTree {
    var tree: Stage.Tree

    constructor ()
      ensures tree == Trees.EmptyTree()
    {
      tree := Trees.EmptyTree();
    }

    /** Makes the missing directories down to `up`; anything else on the way is an error. */
    method PrepareParent(up: Paths.Path) returns (ok: bool)
      requires Trees.WellFormed(tree)
      modifies this
      ensures ok <==> Trees.Mountable(old(tree), up)
      ensures ok ==> tree == Trees.MakeDirs(old(tree), up)
      ensures !ok ==> exists n :: 0 <= n <= |up| && tree == Trees.MakeDirs(old(tree), up[..n])
    {
      ghost var start := tree;
      var i := 0;
      NoDirsYet(start, up);
      hide Trees.Mountable, Trees.MakeDirs, Trees.WellFormed;
      while i < |up|
        invariant i <= |up| && tree == Trees.MakeDirs(start, up[..i])
        invariant Trees.Mountable(start, up[..i])
      {
        NextDir(start, up, i);
        var current := up[..i + 1];
        if current in tree {
          if !tree[current].Dir? {
            return false;
          }
        } else {
          tree := tree[current := Trees.Dir];
        }
        i := i + 1;
      }
      assert up[..i] == up;
      ok := true;
    }

    /** `restore_entry` */
    method RestoreEntry(x: Stage.Item) returns (ok: bool)
      requires Stage.IsLeaf(x) && Trees.WellFormed(tree)
      modifies this
      ensures match Stage.StageOne(old(tree), x)
              case Err => !ok
              case Ok(t) => ok && tree == t && Trees.WellFormed(tree)
    {
      ghost var start := tree;
      var up := Trees.Parent(x.path);
      var made := PrepareParent(up);
      if !made || !Stage.Creatable(x) || x.path in tree {
        return false;
      }
      Trees.PutWellFormed(start, x);
      tree := tree[x.path := x.node];
      ok := true;
    }
  }

  lemma NoDirsYet(start: Stage.Tree, up: Paths.Path)
    requires Trees.WellFormed(start)
    ensures Trees.MakeDirs(start, up[..0]) == start && Trees.Mountable(start, up[..0])
  {
    assert up[..0] == [];
  }

  /** One more directory on the way to `up`: there is one, or one is made, or something else is in the way. */
  lemma NextDir(start: Stage.Tree, up: Paths.Path, i: nat)
    requires Trees.WellFormed(start) && i < |up| && Trees.Mountable(start, up[..i])
    ensures var t, current := Trees.MakeDirs(start, up[..i]), up[..i + 1];
            && Trees.MakeDirs(start, current) == (if current in t then t else t[current := Trees.Dir])
            && if current in t && !t[current].Dir? then !Trees.Mountable(start, up)
               else Trees.Mountable(start, current)
  {
    Trees.MakeDirsAdds(start, up[..i]);
    hide Trees.WellFormed;
    var t, current := Trees.MakeDirs(start, up[..i]), up[..i + 1];
    assert current[..i] == up[..i] && !Trees.LeadsTo(current, up[..i]);
    if current in t && !t[current].Dir? {
      assert current in start;
    } else {
      MountableStep(start, up, i);
    }
  }

  lemma MountableStep(start: Stage.Tree, up: Paths.Path, i: nat)
    requires i < |up| && Trees.Mountable(start, up[..i])
    requires up[..i + 1] in start ==> start[up[..i + 1]].Dir?
    ensures Trees.Mountable(start, up[..i + 1])
  {
    var q := up[..i + 1];
    forall j | 0 <= j <= |q| ensures q[..j] in start ==> start[q[..j]].Dir? {
      if j <= i {
        assert q[..j] == up[..i][..j];
      } else {
        assert q[..j] == q;
      }
    }
  }

  /** What staging decoded entries amounts to. */
  ghost function StagedEntries(v: Codec.Version, decoded: Result<seq<Codec.Entry>>): (r: Result<Stage.Tree>) {
    if decoded.Err? || !Codec.AllStorable(v, decoded.value) then Err
    else
      Stage.ItemsAreLeaves(v, decoded.value);
      Stage.StageAll(Stage.ItemsOf(v, decoded.value))
  }

  /** What decoding and staging `bytes` amounts to. */
  ghost function Restored(bytes: Bytes): (r: Result<Stage.Tree>) {
    match Codec.Decode(bytes)
    case Err => Err
    case Ok(b) => StagedEntries(b.version, Ok(b.entries))
  }

  lemma {:induction false} StagingFails(items: seq<Stage.Item>, n: nat)
    requires Stage.AllLeaves(items) && n <= |items| && Stage.AllLeaves(items[..n])
    requires Stage.StageAll(items[..n]).Err?
    ensures Stage.StageAll(items).Err?
  {
    if n < |items| {
      var front := items[..|items| - 1];
      assert items == front + [items[|items| - 1]];
      assert front[..n] == items[..n];
      StagingFails(front, n);
    } else {
      assert items[..n] == items;
    }
  }

  /** A destination path, absent or holding a tree. */
  class Workspace {
    var destination: Option<Stage.Tree>

    constructor (destination: Option<Stage.Tree>)
      ensures this.destination == destination
    {
      this.destination := destination;
    }

    /** `publish`: one rename that never replaces. */
    method Publish(tree: Stage.Tree) returns (ok: bool)
      modifies this
      ensures ok <==> old(destination).None?
      ensures destination == if ok then Some(tree) else old(destination)
    {
      if destination.Some? {
        return false;
      }
      destination := Some(tree);
      ok := true;
    }

    /** Restores into an absent destination. `appeared` is what another process puts there meanwhile. */
    method RestoreDirectoryBlob(reader: Reader, appeared: Option<Stage.Tree>) returns (ok: bool)
      requires destination.None?
      modifies this, reader
      ensures ok <==> appeared.None? && Restored(old(reader.rest)).Ok?
      ensures destination == if ok then Some(Restored(old(reader.rest)).value) else appeared
    {
      destination := appeared;
      var staged := new StagedTree();
      var decoded := StageFrom(reader, staged);
      if !decoded {
        return false;
      }
      ok := Publish(staged.tree);
    }
  }

  /** The entries decoded so far followed by what the rest of the stream decodes to. */
  ghost function Joined(v: Codec.Version, done: seq<Codec.Entry>, rest: Bytes): (r: Result<seq<Codec.Entry>>) {
    match Codec.DecodeEntries(v, rest)
    case Err => Err
    case Ok(es) => Ok(done + es)
  }

  lemma JoinedStep(v: Codec.Version, done: seq<Codec.Entry>, rest: Bytes)
    ensures match Codec.DecodeEntry(v, rest)
            case End => Joined(v, done, rest) == Ok(done)
            case Bad => Joined(v, done, rest) == Err
            case Got(e, tail) => Joined(v, done, rest) == Joined(v, done + [e], tail)
  {
    hide Codec.DecodeEntry;
    match Codec.DecodeEntry(v, rest)
    case End => assert done + [] == done;
    case Bad =>
    case Got(e, tail) =>
      if Codec.DecodeEntries(v, tail).Ok? {
        var es := Codec.DecodeEntries(v, tail).value;
        assert done + ([e] + es) == (done + [e]) + es;
      }
  }

  lemma ItemsOfAppend(v: Codec.Version, es: seq<Codec.Entry>, e: Codec.Entry)
    requires Codec.AllStorable(v, es) && Codec.Storable(v, e)
    ensures Codec.AllStorable(v, es + [e])
    ensures Stage.ItemsOf(v, es + [e]) == Stage.ItemsOf(v, es) + [Stage.ItemOf(e)]
  {
  }

  lemma ItemsOfPrefix(v: Codec.Version, es: seq<Codec.Entry>, tail: seq<Codec.Entry>)
    requires Codec.AllStorable(v, es + tail) && Codec.AllStorable(v, es)
    ensures Stage.ItemsOf(v, es + tail)[..|es|] == Stage.ItemsOf(v, es)
  {
  }

  /** What the entry loop keeps: the private tree is what the entries read so far stage to. */
  ghost predicate Staging(v: Codec.Version, done: seq<Codec.Entry>, tree: Stage.Tree) {
    && Codec.AllStorable(v, done)
    && Stage.AllLeaves(Stage.ItemsOf(v, done))
    && Stage.StageAll(Stage.ItemsOf(v, done)) == Ok(tree)
    && Trees.WellFormed(tree)
  }

  /** One turn of the entry loop. */
  method StageNext(v: Codec.Version, staged: StagedTree, ghost done: seq<Codec.Entry>, e: Codec.Entry)
    returns (ok: bool)
    requires Staging(v, done, staged.tree) && Codec.Storable(v, e)
    modifies staged
    ensures Codec.AllStorable(v, done + [e])
    ensures ok ==> Staging(v, done + [e], staged.tree)
    ensures !ok ==> Stage.AllLeaves(Stage.ItemsOf(v, done + [e])) && Stage.StageAll(Stage.ItemsOf(v, done + [e])).Err?
  {
    ItemsOfAppend(v, done, e);
    Stage.ItemsAreLeaves(v, done + [e]);
    ghost var items := Stage.ItemsOf(v, done + [e]);
    assert items[..|items| - 1] == Stage.ItemsOf(v, done) && items[|items| - 1] == Stage.ItemOf(e);
    ok := staged.RestoreEntry(Stage.ItemOf(e));
  }

  /** When the entries so far cannot be staged, no continuation of the stream can. */
  lemma StagingFailsFrom(v: Codec.Version, done: seq<Codec.Entry>, rest: Bytes)
    requires Codec.AllStorable(v, done) && Stage.AllLeaves(Stage.ItemsOf(v, done))
    requires Stage.StageAll(Stage.ItemsOf(v, done)).Err?
    ensures StagedEntries(v, Joined(v, done, rest)).Err?
  {
    var joined := Joined(v, done, rest);
    if joined.Ok? && Codec.AllStorable(v, joined.value) {
      Stage.ItemsAreLeaves(v, joined.value);
      ItemsOfPrefix(v, done, joined.value[|done|..]);
      assert joined.value == done + joined.value[|done|..];
      StagingFails(Stage.ItemsOf(v, joined.value), |done|);
    }
  }

  lemma StagingStarts(v: Codec.Version, rest: Bytes)
    ensures Staging(v, [], Trees.EmptyTree()) && Joined(v, [], rest) == Codec.DecodeEntries(v, rest)
  {
    Stage.ItemsAreLeaves(v, []);
    var decoded := Codec.DecodeEntries(v, rest);
    assert decoded.Ok? ==> [] + decoded.value == decoded.value;
  }

  lemma StagingEnds(v: Codec.Version, done: seq<Codec.Entry>, tree: Stage.Tree)
    requires Staging(v, done, tree)
    ensures StagedEntries(v, Ok(done)) == Ok(tree)
  {
    hide Codec.AllStorable, Stage.StageAll;
  }

  /** The entry loop. */
  method StageEntries(v: Codec.Version, reader: Reader, staged: StagedTree) returns (ok: bool)
    requires staged.tree == Trees.EmptyTree()
    modifies reader, staged
    ensures var r := StagedEntries(v, Codec.DecodeEntries(v, old(reader.rest)));
            (ok <==> r.Ok?) && (ok ==> staged.tree == r.value)
  {
    hide Codec.DecodeEntries, Codec.DecodeEntry, Codec.Storable, Staging, Joined;
    ghost var decoded := Codec.DecodeEntries(v, reader.rest);
    ghost var done := [];
    StagingStarts(v, reader.rest);
    while true
      invariant Staging(v, done, staged.tree) && decoded == Joined(v, done, reader.rest)
      decreases |reader.rest|
    {
      JoinedStep(v, done, reader.rest);
      ghost var before := reader.rest;
      var next := reader.NextEntry(v);
      match next
      case Bad =>
        return false;
      case End =>
        StagingEnds(v, done, staged.tree);
        return true;
      case Got(e, _) =>
        Codec.EncodeDecodeEntry(v, before);
        ok := StageNext(v, staged, done, e);
        done := done + [e];
        if !ok {
          StagingFailsFrom(v, done, reader.rest);
          return;
        }
    }
  }

  /** Decodes the stream into the private tree. */
  method StageFrom(reader: Reader, staged: StagedTree) returns (ok: bool)
    requires staged.tree == Trees.EmptyTree()
    modifies reader, staged
    ensures ok <==> Restored(old(reader.rest)).Ok?
    ensures ok ==> staged.tree == Restored(old(reader.rest)).value
  {
    ghost var whole := reader.rest;
    var magic := reader.ReadExact(18);
    if magic.None? || (magic.value != Codec.Magic(Codec.V1) && magic.value != Codec.Magic(Codec.V2)) {
      NoVersion(whole);
      return false;
    }
    var v := if magic.value == Codec.Magic(Codec.V1) then Codec.V1 else Codec.V2;
    KnownVersion(v, whole);
    ok := StageEntries(v, reader, staged);
  }

  lemma NoVersion(s: Bytes)
    requires |s| < 18 || (s[..18] != Codec.Magic(Codec.V1) && s[..18] != Codec.Magic(Codec.V2))
    ensures Restored(s).Err?
  {
  }

  lemma KnownVersion(v: Codec.Version, s: Bytes)
    requires |s| >= 18 && s[..18] == Codec.Magic(v)
    ensures Restored(s) == StagedEntries(v, Codec.DecodeEntries(v, s[18..]))
  {
    assert s == s[..18] + s[18..];
    Codec.VersionOfEncoded(v, s[18..]);
  }

  /** The blob of storable entries restores exactly when no entry path equals or is above another and
      every name and target can be created; the destination then holds exactly those entries. */
  lemma RestoreIff(v: Codec.Version, es: seq<Codec.Entry>)
    requires Codec.AllStorable(v, es)
    ensures var items, r := Stage.ItemsOf(v, es), Restored(Codec.Encode(v, es));
            && (r.Ok? <==> Stage.ConflictFree(items) && forall x :: x in items ==> Stage.Creatable(x))
            && (r.Ok? ==> Trees.Shows(r.value, items))
  {
    hide Codec.Decode, Codec.Encode, Codec.Storable, Stage.StageAll, Stage.ItemsOf, Stage.Creatable;
    hide Trees.Shows, Stage.ConflictFree;
    Codec.DecodeIff(Codec.Encode(v, es), Codec.Blob(v, es));
    Stage.ItemsAreLeaves(v, es);
    Stage.StageAllIff(Stage.ItemsOf(v, es));
  }
}
