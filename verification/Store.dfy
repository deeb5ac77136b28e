/** The blob files of the local store under any number of concurrent writers, removals and crashes. */
module Store {
  import opened Common
  import Codec = BlobCodec

  /** The compressor and the digest function, taken as given. */
  datatype Env = Env(z: Codec.Zstd, hash: Bytes -> Digest)

  /** `Durability` */
  datatype Policy = Atomic | Contents | ContentsAndDirectory

  /** `.tmp-<basename>-<pid>-<seq>` next to the blob of `digest`. */
  datatype TempName = TempName(digest: Digest, pid: nat, seq_: nat)

  datatype Phase = Checking | Encoded | Housed | Named | Writing(written: nat) | Synced | Renamed {
    predicate HasName() {
      !Checking? && !Encoded? && !Housed?
    }
  }

  /** One `put_blob` or `mirror_blob` in flight. */
  datatype Writer = Writer(pid: nat, raw: Bytes, policy: Policy, phase: Phase, temp: TempName)

  /** A directory that exists: a power loss can undo its creation, or not. */
  datatype Dir = Loose | Fixed

  /** The directory of the blobs, with those above it, and the shards in it by their first byte. */
  datatype Dirs = Dirs(base: Option<Dir>, shards: map<byte, Dir>)

  /** The shard of a blob: `cas/<aa>`. */
  function Shard(d: Digest): (b: byte) {
    d[0]
  }

  /** The blob files readers see; for some of them also what a power loss may turn them into; the
      directories; the temporary files; each process's `TMP_COUNTER`; the writers in flight. */
  datatype State = State(blobs: map<Digest, Bytes>,
                         unsettled: map<Digest, set<Option<Bytes>>>,
                         dirs: Dirs,
                         temps: map<TempName, Bytes>,
                         counters: map<nat, nat>,
                         writers: map<nat, Writer>)
  {
    /** What reading the path of `d` gives now. */
    function Visible(d: Digest): (o: Option<Bytes>) {
      if d in blobs then Some(blobs[d]) else None
    }

    /** What a power loss may leave at the path of `d` when its shard survives. */
    function Possible(d: Digest): (os: set<Option<Bytes>>) {
      {Visible(d)} + if d in unsettled then unsettled[d] else {}
    }

    function Counter(pid: nat): (n: nat) {
      if pid in counters then counters[pid] else 0
    }
  }

  datatype Step =
    | Begin(id: nat, pid: nat, raw: Bytes, policy: Policy)
    | Check(id: nat)
    | MakeDirs(id: nat)
    | Name(id: nat)
    | Create(id: nat)
    | Write(id: nat, count: nat)
    | Sync(id: nat)
    | Rename(id: nat)
    | SyncDirectory(id: nat)
    | Fail(id: nat)
    | Remove(digest: Digest)
    | ProcessDies(pid: nat)
    | PowerLoss(kept: Option<set<byte>>, left: map<Digest, Bytes>, junk: map<TempName, Bytes>)

  const EMPTY: State := State(map[], map[], Dirs(None, map[]), map[], map[], map[])

  /** Every beginning of `bytes`, as a torn write may leave it. */
  function Torn(bytes: Bytes): (os: set<Option<Bytes>>) {
    set n | 0 <= n <= |bytes| :: Some(bytes[..n])
  }

  function Stored(env: Env, w: Writer): (s: Bytes) {
    match Codec.Encode(env.z, w.raw)
    case Ok(s) => s
    case Err => []
  }

  function WithPhase(s: State, id: nat, phase: Phase): (r: State)
    requires id in s.writers
  {
    s.(writers := s.writers[id := s.writers[id].(phase := phase)])
  }

  /** The path of `d` changes to `now`; until its directory is synchronized a power loss may undo that. */
  function Changed(s: State, d: Digest, now: Option<Bytes>, extra: set<Option<Bytes>>): (r: State) {
    s.(blobs := if now.Some? then s.blobs[d := now.value] else s.blobs - {d},
       unsettled := s.unsettled[d := s.Possible(d) + extra])
  }

  /** The existence check and the encoding. */
  function CheckStep(env: Env, s: State, id: nat): (r: State)
    requires id in s.writers
  {
    var w := s.writers[id];
    if env.hash(w.raw) in s.blobs || Codec.Encode(env.z, w.raw).Err? then s.(writers := s.writers - {id})
    else WithPhase(s, id, Encoded)
  }

  /** `ensure_dir`: what is missing is made, and nothing synchronizes the directories it is made in. */
  function Housing(dirs: Dirs, b: byte): (r: Dirs) {
    Dirs(if dirs.base.None? then Some(Loose) else dirs.base,
         if b in dirs.shards then dirs.shards else dirs.shards[b := Loose])
  }

  /** The choice of a temporary name. */
  function NameStep(s: State, id: nat): (r: State)
    requires id in s.writers
  {
    var w := s.writers[id];
    var n := s.Counter(w.pid);
    s.(counters := s.counters[w.pid := n + 1],
       writers := s.writers[id := w.(phase := Named, temp := TempName(w.temp.digest, w.pid, n))])
  }

  /** Synchronizing a shard settles every path in it. */
  function SyncShard(unsettled: map<Digest, set<Option<Bytes>>>, b: byte): (r: map<Digest, set<Option<Bytes>>>) {
    map d | d in unsettled && Shard(d) != b :: unsettled[d]
  }

  /** What a power loss may do: undo the creation of loose directories, with all they hold, and of what stays
      keep for each path one of the things possible there. */
  predicate MayLose(s: State, kept: Option<set<byte>>, left: map<Digest, Bytes>) {
    match kept
    case None => s.dirs.base != Some(Fixed) && left == map[]
    case Some(shards) =>
      && s.dirs.base.Some? && shards <= s.dirs.shards.Keys
      && (forall b :: b in s.dirs.shards && s.dirs.shards[b].Fixed? ==> b in shards)
      && (forall d :: d in left ==> Shard(d) in shards && Some(left[d]) in s.Possible(d))
      && (forall d :: d in s.blobs && d !in left && Shard(d) in shards ==> None in s.Possible(d))
  }

  function LossStep(kept: Option<set<byte>>, left: map<Digest, Bytes>, junk: map<TempName, Bytes>): (r: State) {
    var dirs := if kept.None? then Dirs(None, map[]) else Dirs(Some(Fixed), map b | b in kept.value :: Fixed);
    State(left, map[], dirs, junk, map[], map[])
  }

  function RenameStep(s: State, id: nat): (r: State)
    requires id in s.writers && s.writers[id].temp in s.temps
  {
    var w := s.writers[id];
    var content := s.temps[w.temp];
    var moved := Changed(s, w.temp.digest, Some(content), if w.phase.Synced? then {} else Torn(content));
    WithPhase(moved.(temps := s.temps - {w.temp}), id, Renamed)
  }

  /** One atomic step; `None` when it is not enabled. */
  function Next(env: Env, s: State, step: Step): (r: Option<State>) {
    match step
    case Begin(id, pid, raw, policy) =>
      if id in s.writers then None
      else Some(s.(writers := s.writers[id := Writer(pid, raw, policy, Checking, TempName(env.hash(raw), pid, 0))]))
    case Check(id) =>
      if id in s.writers && s.writers[id].phase.Checking? then Some(CheckStep(env, s, id)) else None
    case MakeDirs(id) =>
      if id in s.writers && s.writers[id].phase.Encoded?
      then Some(WithPhase(s.(dirs := Housing(s.dirs, Shard(s.writers[id].temp.digest))), id, Housed)) else None
    case Name(id) =>
      if id in s.writers && s.writers[id].phase.Housed? then Some(NameStep(s, id)) else None
    case Create(id) =>
      if id in s.writers && s.writers[id].phase.Named? && Shard(s.writers[id].temp.digest) in s.dirs.shards
      then Some(WithPhase(s.(temps := s.temps[s.writers[id].temp := []]), id, Writing(0))) else None
    case Write(id, count) =>
      if id in s.writers && s.writers[id].phase.Writing?
         && s.writers[id].phase.written + count <= |Stored(env, s.writers[id])| then
        var w := s.writers[id];
        var n := w.phase.written + count;
        Some(WithPhase(s.(temps := s.temps[w.temp := Stored(env, w)[..n]]), id, Writing(n)))
      else None
    case Sync(id) =>
      if id in s.writers && s.writers[id].phase == Writing(|Stored(env, s.writers[id])|)
         && !s.writers[id].policy.Atomic?
      then Some(WithPhase(s, id, Synced)) else None
    case Rename(id) =>
      if id in s.writers && s.writers[id].temp in s.temps
         && (s.writers[id].phase.Synced?
             || (s.writers[id].policy.Atomic? && s.writers[id].phase == Writing(|Stored(env, s.writers[id])|)))
      then Some(RenameStep(s, id)) else None
    case SyncDirectory(id) =>
      if id in s.writers && s.writers[id].phase.Renamed?
      then Some(s.(unsettled := if s.writers[id].policy.ContentsAndDirectory?
                                then SyncShard(s.unsettled, Shard(s.writers[id].temp.digest)) else s.unsettled,
                   writers := s.writers - {id}))
      else None
    case Fail(id) =>
      if id in s.writers
      then Some(s.(temps := if s.writers[id].phase.HasName() then s.temps - {s.writers[id].temp} else s.temps,
                   writers := s.writers - {id}))
      else None
    case Remove(d) => Some(Changed(s, d, None, {}))
    case ProcessDies(pid) =>
      Some(s.(counters := s.counters - {pid},
              writers := map id | id in s.writers && s.writers[id].pid != pid :: s.writers[id]))
    case PowerLoss(kept, left, junk) => if MayLose(s, kept, left) then Some(LossStep(kept, left, junk)) else None
  }

  function Run(env: Env, steps: seq<Step>): (r: Option<State>) {
    if steps == [] then Some(EMPTY)
    else
      match Run(env, steps[..|steps| - 1])
      case None => None
      case Some(s) => Next(env, s, steps[|steps| - 1])
  }

  // ----- Invariant ---------------------------------------------------------------

  /** `content` is the whole stored form of bytes that hash to `d`. */
  ghost predicate Complete(env: Env, d: Digest, content: Bytes) {
    exists raw :: env.hash(raw) == d && Codec.Encode(env.z, raw) == Ok(content)
  }

  /** A writer past its name owns it: it is the writer's own, and holds what was written so far. */
  ghost predicate WriterOk(env: Env, s: State, id: nat)
    requires id in s.writers
  {
    var w := s.writers[id];
    && w.temp.digest == env.hash(w.raw) && w.temp.pid == w.pid
    && !w.policy.Atomic?
    && (!w.phase.Checking? ==> Codec.Encode(env.z, w.raw).Ok?)
    && (w.phase.HasName() ==> w.temp.seq_ < s.Counter(w.pid))
    && (w.phase.Writing? ==>
          && w.phase.written <= |Stored(env, w)|
          && w.temp in s.temps && s.temps[w.temp] == Stored(env, w)[..w.phase.written])
    && (w.phase.Synced? ==> w.temp in s.temps && s.temps[w.temp] == Stored(env, w))
  }

  ghost predicate NamesDistinct(s: State) {
    forall i, j :: i in s.writers && j in s.writers && i != j
                   && s.writers[i].phase.HasName() && s.writers[j].phase.HasName()
                   ==> s.writers[i].temp != s.writers[j].temp
  }

  ghost predicate PathOk(env: Env, s: State, d: Digest) {
    forall o :: o in s.Possible(d) && o.Some? ==> Complete(env, d, o.value)
  }

  ghost predicate Inv(env: Env, s: State) {
    && (forall d: Digest :: PathOk(env, s, d))
    && (forall id :: id in s.writers ==> WriterOk(env, s, id))
    && NamesDistinct(s)
  }

  /** The store's own writers synchronize contents before they rename. */
  predicate SyncsContents(step: Step) {
    step.Begin? ==> !step.policy.Atomic?
  }

  /** A change of one writer's phase or temporary file leaves the others as they were. */
  ghost predicate OthersSame(s: State, t: State, id: nat) {
    && (forall j :: j in t.writers && j != id ==> j in s.writers && t.writers[j] == s.writers[j])
    && (forall j :: j in s.writers && j != id && s.writers[j].phase.HasName() && s.writers[j].temp in s.temps ==>
          s.writers[j].temp in t.temps && t.temps[s.writers[j].temp] == s.temps[s.writers[j].temp])
    && (forall pid :: s.Counter(pid) <= t.Counter(pid))
  }

  lemma OthersOk(env: Env, s: State, t: State, id: nat)
    requires Inv(env, s) && OthersSame(s, t, id)
    ensures forall j :: j in t.writers && j != id ==> WriterOk(env, t, j)
  {
    hide Codec.Encode;
    forall j | j in t.writers && j != id ensures WriterOk(env, t, j) {
      assert WriterOk(env, s, j);
      assert s.Counter(s.writers[j].pid) <= t.Counter(s.writers[j].pid);
    }
  }

  lemma PathsSame(env: Env, s: State, t: State)
    requires Inv(env, s) && t.blobs == s.blobs && t.unsettled == s.unsettled
    ensures forall d: Digest :: PathOk(env, t, d)
  {
    forall d: Digest ensures PathOk(env, t, d) {
      assert PathOk(env, s, d);
      assert t.Possible(d) == s.Possible(d);
    }
  }

  /** Names stay distinct when the one writer that may change keeps its name, or ends. */
  lemma NamesKept(s: State, t: State, id: nat)
    requires NamesDistinct(s) && OthersSame(s, t, id)
    requires id in t.writers && t.writers[id].phase.HasName() ==>
               id in s.writers && s.writers[id].phase.HasName() && t.writers[id].temp == s.writers[id].temp
    ensures NamesDistinct(t)
  {
  }

  lemma BeginInv(env: Env, s: State, step: Step)
    requires Inv(env, s) && step.Begin? && SyncsContents(step) && Next(env, s, step).Some?
    ensures Inv(env, Next(env, s, step).value)
  {
    hide Codec.Encode, PathOk;
    var t := Next(env, s, step).value;
    PathsSame(env, s, t);
    OthersOk(env, s, t, step.id);
    NamesKept(s, t, step.id);
  }

  lemma CheckInv(env: Env, s: State, id: nat)
    requires Inv(env, s) && id in s.writers && s.writers[id].phase.Checking?
    ensures Inv(env, CheckStep(env, s, id))
  {
    hide Codec.Encode, PathOk, Stored, WithPhase;
    var w := s.writers[id];
    if env.hash(w.raw) in s.blobs || Codec.Encode(env.z, w.raw).Err? {
      ReturnInv(env, s, id);
    } else {
      EncodedInv(env, s, id);
    }
  }

  lemma ReturnInv(env: Env, s: State, id: nat)
    requires Inv(env, s) && id in s.writers
    ensures Inv(env, s.(writers := s.writers - {id}))
  {
    hide Codec.Encode, PathOk, Stored;
    var t := s.(writers := s.writers - {id});
    PathsSame(env, s, t);
    OthersOk(env, s, t, id);
  }

  lemma EncodedInv(env: Env, s: State, id: nat)
    requires Inv(env, s) && id in s.writers && s.writers[id].phase.Checking?
    requires Codec.Encode(env.z, s.writers[id].raw).Ok?
    ensures Inv(env, WithPhase(s, id, Encoded))
  {
    hide Codec.Encode, PathOk, Stored;
    var t := WithPhase(s, id, Encoded);
    PathsSame(env, s, t);
    OthersOk(env, s, t, id);
    assert WriterOk(env, s, id);
    NamesKept(s, t, id);
  }

  lemma MakeDirsInv(env: Env, s: State, id: nat)
    requires Inv(env, s) && Next(env, s, MakeDirs(id)).Some?
    ensures Inv(env, Next(env, s, MakeDirs(id)).value)
  {
    hide Codec.Encode, PathOk, Stored, Housing;
    var t := Next(env, s, MakeDirs(id)).value;
    PathsSame(env, s, t);
    OthersOk(env, s, t, id);
    assert WriterOk(env, s, id);
    NamesKept(s, t, id);
  }

  /** The name a writer takes is no other writer's: every other name of its process has a lower number. */
  lemma NewNameDistinct(env: Env, s: State, id: nat)
    requires Inv(env, s) && id in s.writers && s.writers[id].phase.Housed?
    ensures NamesDistinct(NameStep(s, id))
  {
    hide Codec.Encode, PathOk, Stored;
    var t := NameStep(s, id);
    assert WriterOk(env, s, id);
    forall j | j in s.writers && j != id && s.writers[j].phase.HasName()
      ensures s.writers[j].temp != TempName(s.writers[id].temp.digest, s.writers[id].pid, s.Counter(s.writers[id].pid))
    {
      assert WriterOk(env, s, j);
    }
  }

  lemma NameInv(env: Env, s: State, id: nat)
    requires Inv(env, s) && id in s.writers && s.writers[id].phase.Housed?
    ensures Inv(env, NameStep(s, id))
  {
    hide Codec.Encode, PathOk, Stored, NamesDistinct;
    var t := NameStep(s, id);
    PathsSame(env, s, t);
    OthersOk(env, s, t, id);
    assert WriterOk(env, s, id);
    NewNameDistinct(env, s, id);
  }

  lemma CreateInv(env: Env, s: State, id: nat)
    requires Inv(env, s) && Next(env, s, Create(id)).Some?
    ensures Inv(env, Next(env, s, Create(id)).value)
  {
    hide Codec.Encode, PathOk;
    var t := Next(env, s, Create(id)).value;
    assert WriterOk(env, s, id);
    PathsSame(env, s, t);
    OthersOk(env, s, t, id);
    NamesKept(s, t, id);
  }

  lemma WriteInv(env: Env, s: State, id: nat, count: nat)
    requires Inv(env, s) && Next(env, s, Write(id, count)).Some?
    ensures Inv(env, Next(env, s, Write(id, count)).value)
  {
    hide Codec.Encode, PathOk;
    var t := Next(env, s, Write(id, count)).value;
    assert WriterOk(env, s, id);
    PathsSame(env, s, t);
    assert Stored(env, s.writers[id]) == Stored(env, t.writers[id]);
    OthersOk(env, s, t, id);
    NamesKept(s, t, id);
  }

  lemma SyncInv(env: Env, s: State, id: nat)
    requires Inv(env, s) && Next(env, s, Sync(id)).Some?
    ensures Inv(env, Next(env, s, Sync(id)).value)
  {
    hide Codec.Encode, PathOk;
    var t := Next(env, s, Sync(id)).value;
    assert WriterOk(env, s, id);
    PathsSame(env, s, t);
    var w := s.writers[id];
    assert Stored(env, w)[..|Stored(env, w)|] == Stored(env, w) == Stored(env, t.writers[id]);
    OthersOk(env, s, t, id);
    NamesKept(s, t, id);
  }

  lemma ChangedPaths(env: Env, s: State, d: Digest, now: Option<Bytes>)
    requires Inv(env, s) && (now.Some? ==> Complete(env, d, now.value))
    ensures forall e: Digest :: PathOk(env, Changed(s, d, now, {}), e)
  {
    hide Codec.Encode;
    var t := Changed(s, d, now, {});
    forall e: Digest ensures PathOk(env, t, e) {
      assert PathOk(env, s, e);
      if e == d {
        assert forall o :: o in t.Possible(e) ==> o == now || o in s.Possible(e);
      } else {
        assert t.Possible(e) == s.Possible(e);
      }
    }
  }

  lemma RenamedPaths(env: Env, s: State, id: nat)
    requires Inv(env, s) && id in s.writers && s.writers[id].temp in s.temps && s.writers[id].phase.Synced?
    ensures forall d: Digest :: PathOk(env, RenameStep(s, id), d)
  {
    hide Codec.Encode, NamesDistinct;
    var w, t := s.writers[id], RenameStep(s, id);
    assert WriterOk(env, s, id);
    assert Complete(env, w.temp.digest, s.temps[w.temp]);
    ChangedPaths(env, s, w.temp.digest, Some(s.temps[w.temp]));
    var moved := Changed(s, w.temp.digest, Some(s.temps[w.temp]), {});
    forall d: Digest ensures PathOk(env, t, d) {
      assert PathOk(env, moved, d) && t.Possible(d) == moved.Possible(d);
    }
  }

  lemma RenameInv(env: Env, s: State, id: nat)
    requires Inv(env, s) && id in s.writers && s.writers[id].temp in s.temps && s.writers[id].phase.Synced?
    ensures Inv(env, RenameStep(s, id))
  {
    hide Codec.Encode, PathOk, Stored, Torn;
    var w, t := s.writers[id], RenameStep(s, id);
    assert WriterOk(env, s, id);
    RenamedPaths(env, s, id);
    OthersOk(env, s, t, id);
    NamesKept(s, t, id);
  }

  lemma SettlingPaths(env: Env, s: State, t: State)
    requires Inv(env, s) && t.blobs == s.blobs
    requires forall d :: d in t.unsettled ==> d in s.unsettled && t.unsettled[d] == s.unsettled[d]
    ensures forall d: Digest :: PathOk(env, t, d)
  {
    hide Complete, WriterOk, NamesDistinct;
    forall d: Digest ensures PathOk(env, t, d) {
      assert PathOk(env, s, d);
      assert t.Possible(d) <= s.Possible(d);
    }
  }

  lemma EndInv(env: Env, s: State, step: Step)
    requires Inv(env, s) && (step.SyncDirectory? || step.Fail?) && Next(env, s, step).Some?
    ensures Inv(env, Next(env, s, step).value)
  {
    hide Codec.Encode, PathOk, Stored;
    var t := Next(env, s, step).value;
    SettlingPaths(env, s, t);
    OthersOk(env, s, t, step.id);
    NamesKept(s, t, step.id);
  }

  lemma LossInv(env: Env, s: State, step: Step)
    requires Inv(env, s) && (step.Remove? || step.ProcessDies? || step.PowerLoss?) && Next(env, s, step).Some?
    ensures Inv(env, Next(env, s, step).value)
  {
    hide Codec.Encode;
    var t := Next(env, s, step).value;
    match step
    case Remove(d) =>
      ChangedPaths(env, s, d, None);
      forall id | id in t.writers ensures WriterOk(env, t, id) {
        assert WriterOk(env, s, id);
      }
    case ProcessDies(pid) =>
      PathsSame(env, s, t);
      forall id | id in t.writers ensures WriterOk(env, t, id) {
        assert WriterOk(env, s, id);
      }
    case PowerLoss(_, left, _) =>
      forall d: Digest ensures PathOk(env, t, d) {
        assert PathOk(env, s, d);
        if d in left {
          assert Some(left[d]) in s.Possible(d);
        }
      }
  }

  lemma NextInv(env: Env, s: State, step: Step)
    requires Inv(env, s) && SyncsContents(step) && Next(env, s, step).Some?
    ensures Inv(env, Next(env, s, step).value)
  {
    hide Inv;
    match step
    case Begin(_, _, _, _) => BeginInv(env, s, step);
    case Check(id) => CheckInv(env, s, id);
    case MakeDirs(id) => MakeDirsInv(env, s, id);
    case Name(id) => NameInv(env, s, id);
    case Rename(id) =>
      NoAtomicWriter(env, s, id);
      RenameInv(env, s, id);
    case Create(id) => CreateInv(env, s, id);
    case Write(id, count) => WriteInv(env, s, id, count);
    case Sync(id) => SyncInv(env, s, id);
    case SyncDirectory(_) => EndInv(env, s, step);
    case Fail(_) => EndInv(env, s, step);
    case _ => LossInv(env, s, step);
  }

  lemma NoAtomicWriter(env: Env, s: State, id: nat)
    requires Inv(env, s) && id in s.writers
    ensures !s.writers[id].policy.Atomic?
  {
    assert WriterOk(env, s, id);
  }

  lemma {:induction false} RunInv(env: Env, steps: seq<Step>)
    requires Run(env, steps).Some? && forall i :: 0 <= i < |steps| ==> SyncsContents(steps[i])
    ensures Inv(env, Run(env, steps).value)
  {
    hide Next;
    if steps == [] {
      forall d: Digest ensures PathOk(env, EMPTY, d) {}
    } else {
      RunInv(env, steps[..|steps| - 1]);
      NextInv(env, Run(env, steps[..|steps| - 1]).value, steps[|steps| - 1]);
    }
  }

  // ----- What readers see --------------------------------------------------------

  datatype Lookup = NotFound | Found(bytes: Bytes) | Corrupt

  /** `get_blob`: read the file, decode it and verify the digest. */
  function GetBlob(env: Env, s: State, d: Digest): (r: Lookup) {
    if d !in s.blobs then NotFound
    else
      match Codec.Verified(env.z, env.hash, s.blobs[d], d)
      case Ok(bytes) => Found(bytes)
      case Err => Corrupt
  }

  /** In every interleaving, a file at a blob path is one complete encoding of bytes with that digest. */
  lemma VisibleIsComplete(env: Env, steps: seq<Step>, d: Digest)
    requires Run(env, steps).Some? && forall i :: 0 <= i < |steps| ==> SyncsContents(steps[i])
    ensures var s := Run(env, steps).value; d in s.blobs ==> Complete(env, d, s.blobs[d])
  {
    hide Run, Codec.Encode;
    RunInv(env, steps);
    var s := Run(env, steps).value;
    assert PathOk(env, s, d);
    assert s.Visible(d) in s.Possible(d);
  }

  /** Hence a lookup never finds a corrupt file: it finds nothing, or bytes with the digest, and those
      are the bytes any writer stored under it unless two inputs collide. */
  lemma GetReturnsWhatWasPut(env: Env, steps: seq<Step>, put: Bytes)
    requires env.z.Lawful()
    requires Run(env, steps).Some? && forall i :: 0 <= i < |steps| ==> SyncsContents(steps[i])
    ensures match GetBlob(env, Run(env, steps).value, env.hash(put))
            case NotFound => true
            case Corrupt => false
            case Found(bytes) => bytes == put || Collision(env.hash, bytes, put)
  {
    hide Run, Codec.Encode, Codec.Decode;
    var s, d := Run(env, steps).value, env.hash(put);
    VisibleIsComplete(env, steps, d);
    if d in s.blobs {
      var raw :| env.hash(raw) == d && Codec.Encode(env.z, raw) == Ok(s.blobs[d]);
      Codec.RoundTrip(env.z, raw);
    }
  }

  // ----- What one put, one removal and one failure do ----------------------------

  /** Reading a path after its blob was removed finds nothing; every other path reads as before. */
  lemma RemovedIsGone(env: Env, s: State, d: Digest, e: Digest)
    ensures Next(env, s, Remove(d)).Some?
    ensures var t := Next(env, s, Remove(d)).value;
            GetBlob(env, t, e) == if e == d then NotFound else GetBlob(env, s, e)
  {
    hide Codec.Verified;
  }

  /** A process that dies takes its own writers with it, and no others, and leaves what readers see. */
  lemma DeathEndsOwnWriters(env: Env, s: State, pid: nat, id: nat)
    ensures Next(env, s, ProcessDies(pid)).Some?
    ensures var t := Next(env, s, ProcessDies(pid)).value;
            && (id in t.writers <==> id in s.writers && s.writers[id].pid != pid)
            && (id in t.writers ==> t.writers[id] == s.writers[id])
            && t.blobs == s.blobs && t.temps == s.temps
  {
  }

  lemma RunSnoc(env: Env, steps: seq<Step>, step: Step)
    ensures Run(env, steps + [step]) ==
            if Run(env, steps).None? then None else Next(env, Run(env, steps).value, step)
  {
    hide Next;
    assert (steps + [step])[..|steps|] == steps;
  }

  /** A put of bytes whose blob is there changes nothing. */
  lemma PutOfExisting(env: Env, steps: seq<Step>, id: nat, pid: nat, raw: Bytes, policy: Policy)
    requires Run(env, steps).Some? && id !in Run(env, steps).value.writers
    requires env.hash(raw) in Run(env, steps).value.blobs
    ensures Run(env, steps + [Begin(id, pid, raw, policy)] + [Check(id)]) == Run(env, steps)
  {
    hide Run;
    var s := Run(env, steps).value;
    RunSnoc(env, steps, Begin(id, pid, raw, policy));
    RunSnoc(env, steps + [Begin(id, pid, raw, policy)], Check(id));
    var w := Writer(pid, raw, policy, Checking, TempName(env.hash(raw), pid, 0));
    assert s.writers[id := w] - {id} == s.writers;
  }

  /** The steps of an undisturbed put of bytes stored in `n` bytes. */
  function PutSteps(id: nat, pid: nat, raw: Bytes, policy: Policy, n: nat): (steps: seq<Step>) {
    [Begin(id, pid, raw, policy), Check(id), MakeDirs(id), Name(id), Create(id), Write(id, n), Sync(id),
     Rename(id), SyncDirectory(id)]
  }

  /** `t` is `s` with one put of `raw` under way, which has come to `phase`. */
  ghost predicate Under(env: Env, s: State, t: State, id: nat, raw: Bytes, policy: Policy, phase: Phase) {
    && t.blobs == s.blobs && id !in s.writers && id in t.writers && t.writers - {id} == s.writers
    && t.writers[id].raw == raw && t.writers[id].policy == policy && t.writers[id].phase == phase
    && t.writers[id].temp.digest == env.hash(raw)
    && (phase.Checking? || phase.Encoded? || Shard(env.hash(raw)) in t.dirs.shards)
    && (phase.Writing? ==>
          && phase.written <= |Stored(env, t.writers[id])| && t.writers[id].temp in t.temps
          && t.temps[t.writers[id].temp] == Stored(env, t.writers[id])[..phase.written])
    && (phase.Synced? ==> t.writers[id].temp in t.temps && t.temps[t.writers[id].temp] == Stored(env, t.writers[id]))
  }

  /** The phase a put comes to after each of its first seven steps. */
  function PutPhase(n: nat, i: nat): (phase: Phase)
    requires i < 7
  {
    [Checking, Encoded, Housed, Named, Writing(0), Writing(n), Synced][i]
  }

  lemma Replaced(writers: map<nat, Writer>, id: nat, w: Writer)
    ensures writers[id := w] - {id} == writers - {id}
  {
  }

  /** The first three of those steps are enabled and bring the put to its next phase. */
  lemma PutPrepares(env: Env, s: State, t: State, id: nat, raw: Bytes, policy: Policy, i: nat)
    requires i < 3 && Codec.Encode(env.z, raw).Ok? && env.hash(raw) !in s.blobs
    requires Under(env, s, t, id, raw, policy, PutPhase(0, i))
    ensures var r := Next(env, t, PutSteps(id, 0, raw, policy, 0)[i + 1]);
            r.Some? && Under(env, s, r.value, id, raw, policy, PutPhase(0, i + 1))
  {
    hide Codec.Encode, Codec.Decode, Stored;
    var u := Next(env, t, PutSteps(id, 0, raw, policy, 0)[i + 1]).value;
    Replaced(t.writers, id, u.writers[id]);
  }

  /** So are the next three, which write the stored form. */
  lemma PutWrites(env: Env, s: State, t: State, id: nat, raw: Bytes, policy: Policy, i: nat)
    requires 3 <= i < 6 && !policy.Atomic? && Codec.Encode(env.z, raw).Ok?
    requires Under(env, s, t, id, raw, policy, PutPhase(|Codec.Encode(env.z, raw).value|, i))
    ensures var n := |Codec.Encode(env.z, raw).value|;
            var r := Next(env, t, PutSteps(id, 0, raw, policy, n)[i + 1]);
            r.Some? && Under(env, s, r.value, id, raw, policy, PutPhase(n, i + 1))
  {
    hide Codec.Encode, Codec.Decode;
    var stored := Codec.Encode(env.z, raw).value;
    var u := Next(env, t, PutSteps(id, 0, raw, policy, |stored|)[i + 1]).value;
    assert stored[..|stored|] == stored;
    Replaced(t.writers, id, u.writers[id]);
  }

  lemma Publishes(env: Env, s: State, t: State, id: nat, raw: Bytes, policy: Policy)
    requires Under(env, s, t, id, raw, policy, Synced) && Codec.Encode(env.z, raw).Ok?
    ensures var r := Next(env, t, Rename(id));
            && r.Some? && Next(env, r.value, SyncDirectory(id)).Some?
            && var u := Next(env, r.value, SyncDirectory(id)).value;
            u.blobs == s.blobs[env.hash(raw) := Codec.Encode(env.z, raw).value] && u.writers == s.writers
  {
    hide Torn, Codec.Encode;
    Replaced(t.writers, id, t.writers[id].(phase := Renamed));
  }

  /** After any run, whatever the other writers are doing, a put of new bytes can finish, and reading then finds
      those bytes; the other blobs are as they were. */
  lemma PutCompletes(env: Env, steps: seq<Step>, id: nat, pid: nat, raw: Bytes, policy: Policy)
    requires env.z.Lawful() && !policy.Atomic? && Codec.Encode(env.z, raw).Ok?
    requires Run(env, steps).Some? && id !in Run(env, steps).value.writers
    requires env.hash(raw) !in Run(env, steps).value.blobs
    ensures var s, stored := Run(env, steps).value, Codec.Encode(env.z, raw).value;
            var r := Run(env, steps + PutSteps(id, pid, raw, policy, |stored|));
            && r.Some? && GetBlob(env, r.value, env.hash(raw)) == Found(raw)
            && r.value.blobs == s.blobs[env.hash(raw) := stored] && r.value.writers == s.writers
  {
    hide Run, Next, Codec.Encode, Codec.Decode, Under;
    var s, n := Run(env, steps).value, |Codec.Encode(env.z, raw).value|;
    var path := PutSteps(id, pid, raw, policy, n);
    var t := PutReaches(env, steps, id, pid, raw, policy, 6);
    Publishes(env, s, t, id, raw, policy);
    var u := Next(env, t, Rename(id)).value;
    Extends(env, steps, path, 7, u);
    Extends(env, steps, path, 8, Next(env, u, SyncDirectory(id)).value);
    assert path[..9] == path;
    Codec.RoundTrip(env.z, raw);
  }

  lemma {:induction false} PutReaches(env: Env, steps: seq<Step>, id: nat, pid: nat, raw: Bytes, policy: Policy,
                                      i: nat) returns (t: State)
    requires i < 7 && !policy.Atomic? && Codec.Encode(env.z, raw).Ok?
    requires Run(env, steps).Some? && id !in Run(env, steps).value.writers
    requires env.hash(raw) !in Run(env, steps).value.blobs
    ensures var n := |Codec.Encode(env.z, raw).value|;
            && Run(env, steps + PutSteps(id, pid, raw, policy, n)[..i + 1]) == Some(t)
            && Under(env, Run(env, steps).value, t, id, raw, policy, PutPhase(n, i))
    decreases i
  {
    hide Run, Next, Codec.Encode, Under;
    var s, n := Run(env, steps).value, |Codec.Encode(env.z, raw).value|;
    var path := PutSteps(id, pid, raw, policy, n);
    if i == 0 {
      assert steps + path[..0] == steps;
      t := Begins(env, s, id, pid, raw, policy);
    } else {
      var before := PutReaches(env, steps, id, pid, raw, policy, i - 1);
      if i <= 3 {
        PutPrepares(env, s, before, id, raw, policy, i - 1);
      } else {
        PutWrites(env, s, before, id, raw, policy, i - 1);
      }
      t := Next(env, before, path[i]).value;
    }
    Extends(env, steps, path, i, t);
  }

  lemma Begins(env: Env, s: State, id: nat, pid: nat, raw: Bytes, policy: Policy) returns (t: State)
    requires id !in s.writers
    ensures Next(env, s, Begin(id, pid, raw, policy)) == Some(t) && Under(env, s, t, id, raw, policy, Checking)
  {
    t := Next(env, s, Begin(id, pid, raw, policy)).value;
    Replaced(s.writers, id, t.writers[id]);
  }

  lemma Extends(env: Env, steps: seq<Step>, path: seq<Step>, i: nat, next: State)
    requires i < |path| && Run(env, steps + path[..i]).Some?
    requires Next(env, Run(env, steps + path[..i]).value, path[i]) == Some(next)
    ensures Run(env, steps + path[..i + 1]) == Some(next)
  {
    hide Run, Next;
    RunSnoc(env, steps + path[..i], path[i]);
    assert steps + path[..i] + [path[i]] == steps + path[..i + 1];
  }

  /** Every temporary file belongs to a writer that is still writing it. */
  ghost predicate TempsOwned(s: State) {
    forall t :: t in s.temps ==> exists id :: id in s.writers && Owns(s.writers[id], t)
  }

  predicate Owns(w: Writer, t: TempName) {
    w.temp == t && (w.phase.Writing? || w.phase.Synced?)
  }

  /** Steps that leave the temporary files alone leave the phases of those who write them alone. */
  lemma UntouchedOwned(s: State, u: State)
    requires TempsOwned(s) && u.temps == s.temps
    requires forall id, t :: id in s.writers && Owns(s.writers[id], t) ==> id in u.writers && Owns(u.writers[id], t)
    ensures TempsOwned(u)
  {
    forall t | t in u.temps ensures exists id :: id in u.writers && Owns(u.writers[id], t) {
      var id :| id in s.writers && Owns(s.writers[id], t);
      assert id in u.writers && Owns(u.writers[id], t);
    }
  }

  /** Creating and writing a file touches the writer's own only. */
  lemma WrittenOwned(env: Env, s: State, step: Step)
    requires TempsOwned(s) && (step.Create? || step.Write?) && Next(env, s, step).Some?
    ensures TempsOwned(Next(env, s, step).value)
  {
    hide Stored;
    var u, id := Next(env, s, step).value, step.id;
    forall t | t in u.temps ensures exists j :: j in u.writers && Owns(u.writers[j], t) {
      if t == u.writers[id].temp {
        assert Owns(u.writers[id], t);
      } else {
        var j :| j in s.writers && Owns(s.writers[j], t);
        assert j in u.writers && Owns(u.writers[j], t);
      }
    }
  }

  /** A writer that renames its file, fails or ends takes nobody else's file away. */
  lemma EndedOwned(env: Env, s: State, step: Step)
    requires NamesDistinct(s) && TempsOwned(s) && Next(env, s, step).Some?
    requires step.Rename? || step.Fail? || step.SyncDirectory?
    ensures TempsOwned(Next(env, s, step).value)
  {
    hide Stored, Torn, SyncShard;
    var u, id := Next(env, s, step).value, step.id;
    forall t | t in u.temps ensures exists j :: j in u.writers && Owns(u.writers[j], t) {
      var j :| j in s.writers && Owns(s.writers[j], t);
      assert j != id;
      assert j in u.writers && Owns(u.writers[j], t);
    }
  }

  lemma NextOwned(env: Env, s: State, step: Step)
    requires Inv(env, s) && TempsOwned(s) && Next(env, s, step).Some?
    requires !step.ProcessDies? && !step.PowerLoss?
    ensures TempsOwned(Next(env, s, step).value)
  {
    hide Stored, Torn, Codec.Encode, Complete, PathOk, Housing, SyncShard, TempsOwned;
    if step.Create? || step.Write? {
      WrittenOwned(env, s, step);
    } else if step.Rename? || step.Fail? || step.SyncDirectory? {
      EndedOwned(env, s, step);
    } else {
      UntouchedOwned(s, Next(env, s, step).value);
    }
  }

  /** As long as no process dies and no power is lost, no temporary file is left behind. */
  lemma {:induction false} NothingLeftBehind(env: Env, steps: seq<Step>)
    requires Run(env, steps).Some?
    requires forall i :: 0 <= i < |steps| ==>
               SyncsContents(steps[i]) && !steps[i].ProcessDies? && !steps[i].PowerLoss?
    ensures TempsOwned(Run(env, steps).value)
  {
    hide Next, Inv;
    if steps == [] {
    } else {
      var n := |steps| - 1;
      NothingLeftBehind(env, steps[..n]);
      RunInv(env, steps[..n]);
      NextOwned(env, Run(env, steps[..n]).value, steps[n]);
    }
  }
}
