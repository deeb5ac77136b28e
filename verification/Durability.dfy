/** Which blobs of the local store a power loss can take away. */
module Durability {
  import opened Common
  import Codec = BlobCodec
  import opened Store

  // ----- Durability --------------------------------------------------------------

  /** The blob of `d` is there, and stays where its shard stays. */
  predicate Held(s: State, d: Digest) {
    d in s.blobs && None !in s.Possible(d)
  }

  /** No power loss can take the shard away. */
  predicate Rooted(s: State, b: byte) {
    s.dirs.base == Some(Fixed) && b in s.dirs.shards && s.dirs.shards[b].Fixed?
  }

  predicate Durable(s: State, d: Digest) {
    Held(s, d) && Rooted(s, Shard(d))
  }

  lemma RootedNext(env: Env, s: State, step: Step, b: byte)
    requires Rooted(s, b) && Next(env, s, step).Some?
    ensures Rooted(Next(env, s, step).value, b)
  {
    hide Codec.Encode, Stored;
  }

  /** A held blob stays held as long as it is there. */
  lemma HeldNext(env: Env, s: State, step: Step, d: Digest)
    requires Held(s, d) && Next(env, s, step).Some? && d in Next(env, s, step).value.blobs
    ensures Held(Next(env, s, step).value, d)
  {
    hide Codec.Encode, Stored, MayLose;
    var t := Next(env, s, step).value;
    assert step.Rename? || step.Remove? || step.SyncDirectory? || step.PowerLoss? || t.Possible(d) == s.Possible(d);
  }

  lemma KeptNext(env: Env, s: State, step: Step, d: Digest)
    requires Durable(s, d) && Next(env, s, step).Some? && step != Remove(d)
    ensures d in Next(env, s, step).value.blobs
  {
    hide Codec.Encode, Stored;
  }

  /** Only removing a durable blob ends that: not another writer's rename, and no power loss. */
  lemma DurableNext(env: Env, s: State, step: Step, d: Digest)
    requires Durable(s, d) && Next(env, s, step).Some? && step != Remove(d)
    ensures Durable(Next(env, s, step).value, d)
  {
    hide Next, Held, Rooted;
    KeptNext(env, s, step, d);
    HeldNext(env, s, step, d);
    RootedNext(env, s, step, Shard(d));
  }

  lemma {:induction false} StaysDurable(env: Env, steps: seq<Step>, n: nat, d: Digest)
    requires n <= |steps| && Run(env, steps).Some? && Run(env, steps[..n]).Some?
    requires Durable(Run(env, steps[..n]).value, d) && forall i :: n <= i < |steps| ==> steps[i] != Remove(d)
    ensures Durable(Run(env, steps).value, d)
  {
    hide Next, Durable;
    if n == |steps| {
      assert steps[..n] == steps;
    } else {
      var front := steps[..|steps| - 1];
      assert front[..n] == steps[..n];
      StaysDurable(env, front, n, d);
      DurableNext(env, Run(env, front).value, steps[|steps| - 1], d);
    }
  }

  // ----- When a shard is rooted --------------------------------------------------

  /** Step `p` is a power loss that left shard `b` where it was. */
  predicate KeptBy(steps: seq<Step>, p: nat, b: byte) {
    p < |steps| && steps[p].PowerLoss? && steps[p].kept.Some? && b in steps[p].kept.value
  }

  /** Some power loss left shard `b`. */
  ghost predicate EverKept(steps: seq<Step>, b: byte) {
    exists p: nat :: KeptBy(steps, p, b)
  }

  /** A shard becomes rooted only by a power loss that leaves it: nothing synchronizes the directory it is in. */
  lemma BecomesRooted(env: Env, s: State, step: Step, b: byte)
    requires Next(env, s, step).Some?
    ensures Rooted(Next(env, s, step).value, b) <==> Rooted(s, b) || KeptBy([step], 0, b)
  {
    hide Codec.Encode, Stored;
  }

  lemma {:induction false} RootedIff(env: Env, steps: seq<Step>, b: byte)
    requires Run(env, steps).Some?
    ensures Rooted(Run(env, steps).value, b) <==> EverKept(steps, b)
  {
    hide Next, Rooted;
    if steps == [] {
      EmptyNotRooted(b);
    } else {
      var n := |steps| - 1;
      RootedIff(env, steps[..n], b);
      BecomesRooted(env, Run(env, steps[..n]).value, steps[n], b);
      if p: nat :| KeptBy(steps[..n], p, b) {
        assert KeptBy(steps, p, b);
      }
      if KeptBy([steps[n]], 0, b) {
        assert KeptBy(steps, n, b);
      }
      if p: nat :| KeptBy(steps, p, b) {
        assert p < n ==> KeptBy(steps[..n], p, b);
        assert p == n ==> KeptBy([steps[n]], 0, b);
      }
    }
  }

  lemma EmptyNotRooted(b: byte)
    ensures !Rooted(EMPTY, b)
  {
  }

  // ----- When a blob is held -----------------------------------------------------

  /** `step` settles the path of `d`: a put synchronizes the shard of `d`, for this blob or another one, or a power
      loss passes over it. */
  predicate Settles(s: State, step: Step, d: Digest) {
    match step
    case SyncDirectory(id) =>
      id in s.writers && s.writers[id].policy.ContentsAndDirectory? && Shard(s.writers[id].temp.digest) == Shard(d)
    case PowerLoss(_, _, _) => true
    case _ => false
  }

  /** Step `i` settles the path of `d`, and the blob has been there ever since. */
  ghost predicate HeldSince(env: Env, steps: seq<Step>, i: nat, d: Digest) {
    && i < |steps| && Run(env, steps[..i]).Some? && Settles(Run(env, steps[..i]).value, steps[i], d)
    && forall j :: i < j <= |steps| ==> Run(env, steps[..j]).Some? && d in Run(env, steps[..j]).value.blobs
  }

  lemma BecomesHeld(env: Env, s: State, step: Step, d: Digest)
    requires Next(env, s, step).Some? && Held(Next(env, s, step).value, d)
    ensures Held(s, d) || Settles(s, step, d)
  {
    hide Codec.Encode, Stored, MayLose;
    var t := Next(env, s, step).value;
    assert step.Rename? || step.Remove? || step.SyncDirectory? || step.PowerLoss? || t.Possible(d) == s.Possible(d);
    assert s.Visible(d) in s.Possible(d);
  }

  lemma SettledIsHeld(env: Env, s: State, step: Step, d: Digest)
    requires Next(env, s, step).Some? && Settles(s, step, d) && d in Next(env, s, step).value.blobs
    ensures Held(Next(env, s, step).value, d)
  {
    hide MayLose;
  }

  lemma HeldIsThere(s: State, d: Digest)
    requires Held(s, d)
    ensures d in s.blobs
  {
  }

  lemma {:induction false} HeldStays(env: Env, steps: seq<Step>, i: nat, d: Digest)
    requires Run(env, steps).Some? && HeldSince(env, steps, i, d)
    ensures Held(Run(env, steps).value, d)
  {
    hide Next, Held, Settles;
    var n := |steps| - 1;
    var front := steps[..n];
    assert steps[..|steps|] == steps;
    if i == n {
      SettledIsHeld(env, Run(env, front).value, steps[n], d);
    } else {
      assert front[..i] == steps[..i];
      forall j | i < j <= n ensures Run(env, front[..j]).Some? && d in Run(env, front[..j]).value.blobs {
        assert front[..j] == steps[..j];
      }
      HeldStays(env, front, i, d);
      HeldNext(env, Run(env, front).value, steps[n], d);
    }
  }

  lemma {:induction false} WasSettled(env: Env, steps: seq<Step>, d: Digest) returns (i: nat)
    requires Run(env, steps).Some? && Held(Run(env, steps).value, d)
    ensures HeldSince(env, steps, i, d)
  {
    hide Next, Held, Settles;
    HeldIsThere(Run(env, steps).value, d);
    var n := |steps| - 1;
    var front := steps[..n];
    assert steps[..n + 1] == steps;
    BecomesHeld(env, Run(env, front).value, steps[n], d);
    if Held(Run(env, front).value, d) {
      i := WasSettled(env, front, d);
      HeldLonger(env, steps, i, d);
    } else {
      i := n;
    }
  }

  lemma HeldLonger(env: Env, steps: seq<Step>, i: nat, d: Digest)
    requires steps != [] && HeldSince(env, steps[..|steps| - 1], i, d)
    requires Run(env, steps).Some? && d in Run(env, steps).value.blobs
    ensures HeldSince(env, steps, i, d)
  {
    hide Run, Settles;
    var front := steps[..|steps| - 1];
    assert front[..i] == steps[..i];
    forall j | i < j <= |steps| ensures Run(env, steps[..j]).Some? && d in Run(env, steps[..j]).value.blobs {
      if j == |steps| {
        assert steps[..j] == steps;
      } else {
        assert front[..j] == steps[..j];
      }
    }
  }

  /** A blob is held exactly when some step settled it and it has been there ever since. */
  lemma HeldIff(env: Env, steps: seq<Step>, d: Digest)
    requires Run(env, steps).Some?
    ensures Held(Run(env, steps).value, d) <==> exists i: nat :: HeldSince(env, steps, i, d)
  {
    hide Run, Held, HeldSince;
    if i: nat :| HeldSince(env, steps, i, d) {
      HeldStays(env, steps, i, d);
    }
    if Held(Run(env, steps).value, d) {
      var i := WasSettled(env, steps, d);
    }
  }

  // ----- What survives a power loss ----------------------------------------------

  /** No power loss that can come next takes the blob away. */
  ghost predicate SurvivesPowerLoss(env: Env, s: State, d: Digest) {
    forall kept, left, junk :: Next(env, s, PowerLoss(kept, left, junk)).Some? ==> d in left
  }

  /** A power loss that takes the blob of `d`, and every loose directory, when one of them can go. */
  lemma LosingStep(env: Env, s: State, d: Digest) returns (kept: Option<set<byte>>, left: map<Digest, Bytes>)
    requires !Durable(s, d)
    ensures Next(env, s, PowerLoss(kept, left, map[])).Some? && d !in left
  {
    if s.dirs.base != Some(Fixed) {
      kept, left := None, map[];
    } else {
      var fixed := set b | b in s.dirs.shards && s.dirs.shards[b].Fixed?;
      left := map e | e in s.blobs && e != d && Shard(e) in fixed :: s.blobs[e];
      assert forall e :: e in left ==> Some(left[e]) == s.Visible(e);
      kept := Some(fixed);
      assert d !in s.blobs || Shard(d) !in fixed || None in s.Possible(d);
      assert MayLose(s, kept, left);
    }
  }

  lemma DurableSurvives(env: Env, s: State, d: Digest)
    ensures SurvivesPowerLoss(env, s, d) <==> Durable(s, d)
  {
    hide Next, Durable;
    if Durable(s, d) {
      forall kept, left, junk | Next(env, s, PowerLoss(kept, left, junk)).Some? ensures d in left {
        KeptNext(env, s, PowerLoss(kept, left, junk), d);
        LossLeaves(env, s, kept, left, junk);
      }
    } else {
      var kept, left := LosingStep(env, s, d);
    }
  }

  lemma LossLeaves(env: Env, s: State, kept: Option<set<byte>>, left: map<Digest, Bytes>, junk: map<TempName, Bytes>)
    requires Next(env, s, PowerLoss(kept, left, junk)).Some?
    ensures Next(env, s, PowerLoss(kept, left, junk)).value.blobs == left
  {
    hide MayLose;
  }

  /** After any run, the next power loss leaves a blob exactly when the blob was settled in its shard, by any put
      that synchronized the shard or by an earlier power loss, and was there ever since, and its shard has been
      left by an earlier power loss. */
  lemma SurvivesIff(env: Env, steps: seq<Step>, d: Digest)
    requires Run(env, steps).Some?
    ensures SurvivesPowerLoss(env, Run(env, steps).value, d) <==>
            (exists i: nat :: HeldSince(env, steps, i, d)) && EverKept(steps, Shard(d))
  {
    hide Run, Held, Rooted, SurvivesPowerLoss, HeldSince, EverKept;
    HeldIff(env, steps, d);
    RootedIff(env, steps, Shard(d));
    DurableSurvives(env, Run(env, steps).value, d);
  }

  /** A put that finds its blob visible returns at once, and what it acknowledged survives the next power loss
      under that condition only. */
  lemma EarlyReturnSurvivesIff(env: Env, steps: seq<Step>, id: nat)
    requires Run(env, steps).Some? && Next(env, Run(env, steps).value, Check(id)).Some?
    requires env.hash(Run(env, steps).value.writers[id].raw) in Run(env, steps).value.blobs
    ensures var s := Run(env, steps).value;
            var t, d := Next(env, s, Check(id)).value, env.hash(s.writers[id].raw);
            && id !in t.writers && t.blobs == s.blobs
            && (SurvivesPowerLoss(env, t, d) <==>
                (exists i: nat :: HeldSince(env, steps, i, d)) && EverKept(steps, Shard(d)))
  {
    hide Run, Codec.Encode, SurvivesPowerLoss, HeldSince, EverKept;
    var s := Run(env, steps).value;
    var t, d := Next(env, s, Check(id)).value, env.hash(s.writers[id].raw);
    assert t.Possible(d) == s.Possible(d);
    DurableSurvives(env, t, d);
    HeldIff(env, steps, d);
    RootedIff(env, steps, Shard(d));
  }

  /** Step `n` acknowledges a put: its blob is in place and its shard is synchronized. */
  ghost predicate Acknowledges(env: Env, steps: seq<Step>, n: nat, id: nat) {
    && n < |steps| && steps[n] == SyncDirectory(id) && Run(env, steps[..n]).Some?
    && var s := Run(env, steps[..n]).value;
       && id in s.writers && Next(env, s, steps[n]).Some? && s.writers[id].policy.ContentsAndDirectory?
       && s.writers[id].temp.digest in s.blobs
  }

  lemma AcknowledgedIsHeld(env: Env, steps: seq<Step>, n: nat, id: nat)
    requires Acknowledges(env, steps, n, id)
    ensures Run(env, steps[..n + 1]).Some?
    ensures Held(Run(env, steps[..n + 1]).value, Run(env, steps[..n]).value.writers[id].temp.digest)
  {
    hide Held, MayLose;
    assert steps[..n + 1][..n] == steps[..n];
    SettledIsHeld(env, Run(env, steps[..n]).value, steps[n], Run(env, steps[..n]).value.writers[id].temp.digest);
  }

  /** Right after it is acknowledged, a put survives the next power loss exactly when an earlier one left its
      shard: the first put of a shard is not safe. */
  lemma AcknowledgedSurvivesIff(env: Env, steps: seq<Step>, id: nat)
    requires steps != [] && Acknowledges(env, steps, |steps| - 1, id)
    ensures Run(env, steps).Some?
    ensures var d := Run(env, steps[..|steps| - 1]).value.writers[id].temp.digest;
            SurvivesPowerLoss(env, Run(env, steps).value, d) <==> EverKept(steps, Shard(d))
  {
    hide Next, Held, Rooted, SurvivesPowerLoss, EverKept;
    assert steps[..|steps|] == steps;
    AcknowledgedIsHeld(env, steps, |steps| - 1, id);
    var d := Run(env, steps[..|steps| - 1]).value.writers[id].temp.digest;
    RootedIff(env, steps, Shard(d));
    DurableSurvives(env, Run(env, steps).value, d);
  }

  lemma AcknowledgedStaysDurable(env: Env, steps: seq<Step>, n: nat, id: nat, d: Digest)
    requires Run(env, steps).Some? && Acknowledges(env, steps, n, id)
    requires d == Run(env, steps[..n]).value.writers[id].temp.digest && EverKept(steps[..n + 1], Shard(d))
    requires forall i :: n < i < |steps| ==> steps[i] != Remove(d)
    ensures Durable(Run(env, steps).value, d)
  {
    hide Next, Run, Held, Rooted, EverKept;
    AcknowledgedIsHeld(env, steps, n, id);
    RootedIff(env, steps[..n + 1], Shard(d));
    StaysDurable(env, steps, n + 1, d);
  }

  lemma WriterDigest(env: Env, s: State, id: nat)
    requires Inv(env, s) && id in s.writers
    ensures s.writers[id].temp.digest == env.hash(s.writers[id].raw)
  {
    assert WriterOk(env, s, id);
  }

  /** Once a put into a shard that a power loss has left is acknowledged, every lookup in every continuation that
      does not remove the blob finds it, whatever other writers do and through any number of power losses. */
  lemma AcknowledgedPutSurvives(env: Env, steps: seq<Step>, n: nat, id: nat)
    requires env.z.Lawful()
    requires Run(env, steps).Some? && forall i :: 0 <= i < |steps| ==> SyncsContents(steps[i])
    requires Acknowledges(env, steps, n, id)
    requires var d := Run(env, steps[..n]).value.writers[id].temp.digest;
             EverKept(steps[..n + 1], Shard(d)) && forall i :: n < i < |steps| ==> steps[i] != Remove(d)
    ensures var raw := Run(env, steps[..n]).value.writers[id].raw;
            match GetBlob(env, Run(env, steps).value, env.hash(raw))
            case Found(bytes) => bytes == raw || Collision(env.hash, bytes, raw)
            case _ => false
  {
    hide Run, Next, Held, Rooted, EverKept, Inv, Codec.Verified;
    var s := Run(env, steps[..n]).value;
    RunInv(env, steps[..n]);
    WriterDigest(env, s, id);
    var d := s.writers[id].temp.digest;
    AcknowledgedStaysDurable(env, steps, n, id, d);
    GetReturnsWhatWasPut(env, steps, s.writers[id].raw);
    HeldIsThere(Run(env, steps).value, d);
  }

  // ----- What can be lost --------------------------------------------------------

  /** Some sequence of steps leads to `s`; with `synced` every writer in it synchronizes contents first. */
  ghost predicate Reachable(env: Env, s: State, synced: bool) {
    exists steps :: Run(env, steps) == Some(s) && AllSynced(steps, synced)
  }

  predicate AllSynced(steps: seq<Step>, synced: bool) {
    synced ==> forall i :: 0 <= i < |steps| ==> SyncsContents(steps[i])
  }

  lemma ReachNext(env: Env, s: State, synced: bool, step: Step)
    requires Reachable(env, s, synced) && Next(env, s, step).Some? && (synced ==> SyncsContents(step))
    ensures Reachable(env, Next(env, s, step).value, synced)
  {
    hide Next;
    var steps :| Run(env, steps) == Some(s) && AllSynced(steps, synced);
    assert (steps + [step])[..|steps|] == steps;
    assert Run(env, steps + [step]) == Next(env, s, step);
    assert AllSynced(steps + [step], synced);
  }

  /** One writer alone has made its shard and taken its name. */
  lemma NamedOnce(env: Env, raw: Bytes, policy: Policy) returns (s: State)
    requires Codec.Encode(env.z, raw).Ok?
    ensures Reachable(env, s, !policy.Atomic?) && s.blobs == map[] && s.unsettled == map[] && s.temps == map[]
    ensures s.dirs == Dirs(Some(Loose), map[Shard(env.hash(raw)) := Loose])
    ensures s.writers == map[0 := Writer(0, raw, policy, Named, TempName(env.hash(raw), 0, 0))]
  {
    hide Codec.Encode, Reachable;
    var d, synced := env.hash(raw), !policy.Atomic?;
    var w := Writer(0, raw, policy, Checking, TempName(d, 0, 0));
    ReachEmpty(env, synced);
    ReachNext(env, EMPTY, synced, Begin(0, 0, raw, policy));
    s := Next(env, EMPTY, Begin(0, 0, raw, policy)).value;
    assert s.writers == map[0 := w];
    ReachNext(env, s, synced, Check(0));
    s := Next(env, s, Check(0)).value;
    assert s.writers == map[0 := w.(phase := Encoded)];
    ReachNext(env, s, synced, MakeDirs(0));
    s := Next(env, s, MakeDirs(0)).value;
    assert s.writers == map[0 := w.(phase := Housed)];
    ReachNext(env, s, synced, Name(0));
    s := Next(env, s, Name(0)).value;
  }

  lemma ReachEmpty(env: Env, synced: bool)
    ensures Reachable(env, EMPTY, synced)
  {
    assert Run(env, []) == Some(EMPTY) && AllSynced([], synced);
  }

  /** It has written its whole temporary file. */
  lemma WrittenOnce(env: Env, raw: Bytes, policy: Policy) returns (s: State)
    requires Codec.Encode(env.z, raw).Ok?
    ensures Reachable(env, s, !policy.Atomic?) && s.blobs == map[] && s.unsettled == map[]
    ensures s.dirs == Dirs(Some(Loose), map[Shard(env.hash(raw)) := Loose])
    ensures var stored := Codec.Encode(env.z, raw).value;
            var temp := TempName(env.hash(raw), 0, 0);
            && s.writers == map[0 := Writer(0, raw, policy, Writing(|stored|), temp)]
            && s.temps == map[temp := stored]
  {
    hide Codec.Encode, Reachable;
    var stored, synced := Codec.Encode(env.z, raw).value, !policy.Atomic?;
    s := NamedOnce(env, raw, policy);
    var w := s.writers[0];
    ReachNext(env, s, synced, Create(0));
    s := Next(env, s, Create(0)).value;
    assert s.writers == map[0 := w.(phase := Writing(0))];
    assert Stored(env, s.writers[0]) == stored;
    ReachNext(env, s, synced, Write(0, |stored|));
    s := Next(env, s, Write(0, |stored|)).value;
    assert s.writers == map[0 := w.(phase := Writing(|stored|))];
    assert stored[..|stored|] == stored;
  }

  /** It has synchronized that file and renamed it into place. */
  lemma RenamedOnce(env: Env, raw: Bytes, policy: Policy) returns (s: State)
    requires Codec.Encode(env.z, raw).Ok? && !policy.Atomic?
    ensures Reachable(env, s, true) && env.hash(raw) in s.blobs
    ensures s.dirs == Dirs(Some(Loose), map[Shard(env.hash(raw)) := Loose])
    ensures s.unsettled.Keys == {env.hash(raw)} && None in s.unsettled[env.hash(raw)]
    ensures s.writers == map[0 := Writer(0, raw, policy, Renamed, TempName(env.hash(raw), 0, 0))]
  {
    hide Codec.Encode, Reachable;
    s := WrittenOnce(env, raw, policy);
    assert Stored(env, s.writers[0]) == Codec.Encode(env.z, raw).value;
    ReachNext(env, s, true, Sync(0));
    s := Next(env, s, Sync(0)).value;
    ReachNext(env, s, true, Rename(0));
    s := Next(env, s, Rename(0)).value;
  }

  /** The first put of a shard is acknowledged, its file and its shard synchronized, and a power loss can still
      take it away, with the shard. */
  lemma FirstPutMayBeLost(env: Env, raw: Bytes)
    requires Codec.Encode(env.z, raw).Ok?
    ensures exists s :: Reachable(env, s, true) && s.writers == map[] && Held(s, env.hash(raw))
                        && !SurvivesPowerLoss(env, s, env.hash(raw))
  {
    hide Codec.Encode, Reachable, SurvivesPowerLoss;
    var d := env.hash(raw);
    var s := RenamedOnce(env, raw, ContentsAndDirectory);
    ReachNext(env, s, true, SyncDirectory(0));
    s := Next(env, s, SyncDirectory(0)).value;
    DurableSurvives(env, s, d);
  }

  /** A put that finds its blob already visible returns at once. When a mirror put it there and did not
      synchronize the shard, the blob does not even stay where its shard stays. */
  lemma ExistingMayBeLost(env: Env, raw: Bytes)
    requires Codec.Encode(env.z, raw).Ok?
    ensures exists s :: Reachable(env, s, true) && 1 in s.writers && s.writers[1].policy.ContentsAndDirectory?
                        && Next(env, s, Check(1)).Some? && 1 !in Next(env, s, Check(1)).value.writers
                        && env.hash(raw) in s.blobs && !Held(Next(env, s, Check(1)).value, env.hash(raw))
  {
    hide Codec.Encode, Run, Reachable;
    var d := env.hash(raw);
    var s := RenamedOnce(env, raw, Contents);
    ReachNext(env, s, true, Begin(1, 0, raw, ContentsAndDirectory));
    s := Next(env, s, Begin(1, 0, raw, ContentsAndDirectory)).value;
    assert None in s.Possible(d);
  }

  /** With the atomic policy alone a power loss can leave a blob that fails its check; this is why blobs
      are written with one of the other two. */
  lemma UnsyncedMayCorrupt(env: Env, raw: Bytes)
    requires Codec.Encode(env.z, raw).Ok? && env.hash(raw) != env.hash([])
    ensures exists s :: Reachable(env, s, false) && GetBlob(env, s, env.hash(raw)).Corrupt?
  {
    hide Codec.Encode, Run, Reachable;
    var s := WrittenOnce(env, raw, Atomic);
    var d, stored := env.hash(raw), Codec.Encode(env.z, raw).value;
    assert Stored(env, s.writers[0]) == stored;
    ReachNext(env, s, false, Rename(0));
    s := Next(env, s, Rename(0)).value;
    assert stored[..0] == [] && Some(stored[..0]) in Torn(stored);
    var kept, left: map<Digest, Bytes> := Some({Shard(d)}), map[d := []];
    assert Next(env, s, PowerLoss(kept, left, map[])).Some?;
    ReachNext(env, s, false, PowerLoss(kept, left, map[]));
    var t := Next(env, s, PowerLoss(kept, left, map[])).value;
    assert Codec.Decode(env.z, []) == Ok([]);
    assert GetBlob(env, t, d).Corrupt?;
  }
}
