/** The garbage collector of the local store: `Cas::gc`. */
module Gc {
  import opened Common

  datatype BlobFile = BlobFile(path: string, digest: Option<Digest>, size: nat, modified: nat)

  datatype ActionFile = ActionFile(path: string, size: nat, modified: nat, refs: seq<Digest>)

  // ----- What a pass must compute ------------------------------------------------

  /** The total size of the files that are not `gone`. */
  function Kept(sizes: seq<nat>, gone: seq<bool>): (total: nat)
    requires |sizes| == |gone|
  {
    if sizes == [] then 0
    else
      var n := |sizes| - 1;
      Kept(sizes[..n], gone[..n]) + if gone[n] then 0 else sizes[n]
  }

  function BlobSizes(blobs: seq<BlobFile>): (sizes: seq<nat>) {
    seq(|blobs|, i requires 0 <= i < |blobs| => blobs[i].size)
  }

  function ActionSizes(actions: seq<ActionFile>): (sizes: seq<nat>) {
    seq(|actions|, i requires 0 <= i < |actions| => actions[i].size)
  }

  /** Some action of the snapshot outside `gone` references `d`. */
  ghost predicate Alive(actions: seq<ActionFile>, gone: seq<bool>, d: Digest)
    requires |gone| == |actions|
  {
    exists a :: 0 <= a < |actions| && !gone[a] && d in actions[a].refs
  }

  /** Some action of the snapshot references `d`. */
  ghost predicate Referenced(actions: seq<ActionFile>, d: Digest) {
    exists a :: 0 <= a < |actions| && d in actions[a].refs
  }

  ghost predicate Orphan(blobs: seq<BlobFile>, actions: seq<ActionFile>, i: nat)
    requires i < |blobs|
  {
    blobs[i].digest.None? || !Referenced(actions, blobs[i].digest.value)
  }

  /** `i` is the file the collector looks up for its digest: the last one scanned. */
  ghost predicate Indexed(blobs: seq<BlobFile>, i: nat)
    requires i < |blobs|
  {
    blobs[i].digest.Some? && forall j :: i < j < |blobs| ==> blobs[j].digest != blobs[i].digest
  }

  /** Oldest first, files of the same age in the order they were scanned. */
  predicate Older(keys: seq<nat>, i: nat, j: nat)
    requires i < |keys| && j < |keys|
  {
    keys[i] < keys[j] || (keys[i] == keys[j] && i < j)
  }

  ghost predicate OldestFirst(keys: seq<nat>, order: seq<nat>) {
    && (forall i :: 0 <= i < |order| ==> order[i] < |keys|)
    && (forall i, j :: 0 <= i < j < |order| ==> Older(keys, order[i], order[j]))
  }

  function BlobKeys(blobs: seq<BlobFile>): (keys: seq<nat>) {
    seq(|blobs|, i requires 0 <= i < |blobs| => blobs[i].modified)
  }

  function ActionKeys(actions: seq<ActionFile>): (keys: seq<nat>) {
    seq(|actions|, i requires 0 <= i < |actions| => actions[i].modified)
  }

  /** `order` lists exactly the orphans, oldest first. */
  ghost predicate OrphanOrder(blobs: seq<BlobFile>, actions: seq<ActionFile>, order: seq<nat>) {
    && OldestFirst(BlobKeys(blobs), order)
    && forall i :: 0 <= i < |blobs| ==> (i in order <==> Orphan(blobs, actions, i))
  }

  /** `order` lists every action, oldest first. */
  ghost predicate ActionOrder(actions: seq<ActionFile>, order: seq<nat>) {
    && OldestFirst(ActionKeys(actions), order)
    && forall i :: 0 <= i < |actions| ==> i in order
  }

  /** A snapshot of the store together with its two eviction orders. */
  datatype Snapshot = Snapshot(blobs: seq<BlobFile>, actions: seq<ActionFile>,
                               orphans: seq<nat>, order: seq<nat>)
  {
    ghost predicate Valid() {
      OrphanOrder(blobs, actions, orphans) && ActionOrder(actions, order)
    }

    /** The actions evicted once the `m` oldest are. */
    ghost function ActionMask(m: nat): (gone: seq<bool>)
      requires m <= |order|
      ensures |gone| == |actions|
    {
      seq(|actions|, a => a in order[..m])
    }

    /** Blob `i` was released: it is referenced, and only by evicted actions. */
    ghost predicate Released(m: nat, i: nat)
      requires m <= |order| && i < |blobs|
    {
      && Indexed(blobs, i)
      && Referenced(actions, blobs[i].digest.value)
      && !Alive(actions, ActionMask(m), blobs[i].digest.value)
    }

    /** Blob `i` is gone once the `k` oldest orphans and the `m` oldest actions are evicted. */
    ghost predicate BlobGone(k: nat, m: nat, i: nat)
      requires k <= |orphans| && m <= |order| && i < |blobs|
    {
      i in orphans[..k] || Released(m, i)
    }

    ghost function BlobMask(k: nat, m: nat): (gone: seq<bool>)
      requires k <= |orphans| && m <= |order|
      ensures |gone| == |blobs|
    {
      seq(|blobs|, i requires 0 <= i < |blobs| => BlobGone(k, m, i))
    }

    /** Bytes on disk once the `k` oldest orphans and the `m` oldest actions are evicted. */
    ghost function After(k: nat, m: nat): (bytes: nat)
      requires k <= |orphans| && m <= |order|
    {
      Kept(BlobSizes(blobs), BlobMask(k, m)) + Kept(ActionSizes(actions), ActionMask(m))
    }

    /** Evicting `k` orphans and `m` actions are the shortest oldest-first prefixes that
        reach the budget, and actions go only after every orphan has gone. */
    ghost predicate Shortest(max: nat, k: nat, m: nat)
      requires k <= |orphans| && m <= |order|
    {
      && (forall j :: 0 <= j < k ==> After(j, 0) > max)
      && (k < |orphans| ==> m == 0 && After(k, 0) <= max)
      && (forall j :: 0 <= j < m ==> After(k, j) > max)
      && (m < |order| ==> After(k, m) <= max)
    }
  }

  // ----- The two sorts -----------------------------------------------------------

  /** Places `x`, scanned after everything in `order`, behind all files as old as it. */
  function Insert(keys: seq<nat>, order: seq<nat>, x: nat): (r: seq<nat>)
    requires x < |keys| && forall y :: y in order ==> y < |keys|
    ensures forall y :: y in r <==> y == x || y in order
  {
    if order == [] then [x]
    else
      var n := |order| - 1;
      assert order == order[..n] + [order[n]] && order[n] in order;
      assert forall y :: y in order[..n] ==> y in order;
      if keys[x] < keys[order[n]] then Insert(keys, order[..n], x) + [order[n]] else order + [x]
  }

  /** A listing goes on with a file that is later than all of it. */
  lemma OldestFirstThen(keys: seq<nat>, order: seq<nat>, last: nat)
    requires OldestFirst(keys, order) && last < |keys|
    requires forall y :: y in order ==> y < |keys| && Older(keys, y, last)
    ensures OldestFirst(keys, order + [last])
  {
    var r := order + [last];
    forall i, j | 0 <= i < j < |r| ensures r[i] < |keys| && r[j] < |keys| && Older(keys, r[i], r[j]) {
      assert r[i] == order[i] && order[i] in order;
    }
  }

  /** What a listing starts with is a listing, and its last file is later than all of that. */
  lemma OldestFirstFront(keys: seq<nat>, order: seq<nat>)
    requires OldestFirst(keys, order) && order != []
    ensures var n := |order| - 1;
            && OldestFirst(keys, order[..n]) && order[n] < |keys| && order[n] in order
            && forall y :: y in order[..n] ==> y < |keys| && y in order && Older(keys, y, order[n])
  {
    var n := |order| - 1;
    forall y | y in order[..n] ensures y < |keys| && y in order && Older(keys, y, order[n]) {
      var i :| 0 <= i < n && order[i] == y;
    }
  }

  lemma {:induction false} InsertOldestFirst(keys: seq<nat>, order: seq<nat>, x: nat)
    requires OldestFirst(keys, order) && x < |keys|
    requires forall y :: y in order ==> y < x
    ensures OldestFirst(keys, Insert(keys, order, x))
  {
    if order == [] {
    } else {
      OldestFirstFront(keys, order);
      hide OldestFirst;
      var n := |order| - 1;
      assert order == order[..n] + [order[n]];
      if keys[x] < keys[order[n]] {
        InsertOldestFirst(keys, order[..n], x);
        OldestFirstThen(keys, Insert(keys, order[..n], x), order[n]);
      } else {
        LaterThanAll(keys, order, x);
        OldestFirstThen(keys, order, x);
      }
    }
  }

  lemma LaterThanAll(keys: seq<nat>, order: seq<nat>, x: nat)
    requires OldestFirst(keys, order) && x < |keys| && order != [] && (forall y :: y in order ==> y < x)
    requires order[|order| - 1] < |keys| && keys[order[|order| - 1]] <= keys[x]
    ensures forall y :: y in order ==> y < |keys| && Older(keys, y, x)
  {
    OldestFirstFront(keys, order);
    hide OldestFirst;
    assert order == order[..|order| - 1] + [order[|order| - 1]];
  }

  /** `sort_by_key` over indices in scan order: a stable sort by modification time. */
  function SortByModified(keys: seq<nat>, indices: seq<nat>): (order: seq<nat>)
    requires forall i :: 0 <= i < |indices| ==> indices[i] < |keys|
    requires forall i, j :: 0 <= i < j < |indices| ==> indices[i] < indices[j]
    ensures OldestFirst(keys, order)
    ensures forall y :: y in order <==> y in indices
  {
    if indices == [] then []
    else
      var n := |indices| - 1;
      assert indices == indices[..n] + [indices[n]];
      var front := SortByModified(keys, indices[..n]);
      InsertOldestFirst(keys, front, indices[n]);
      Insert(keys, front, indices[n])
  }

  // ----- Reference counts --------------------------------------------------------

  /** Every reference made by an action outside `gone`, repeated references counted. */
  ghost function LiveRefs(actions: seq<ActionFile>, gone: seq<bool>): (refs: multiset<Digest>)
    requires |gone| == |actions|
  {
    if actions == [] then multiset{}
    else
      var n := |actions| - 1;
      LiveRefs(actions[..n], gone[..n]) + if gone[n] then multiset{} else multiset(actions[n].refs)
  }

  /** Each count is the number of times its digest occurs in `refs`. */
  ghost predicate Counts(refcount: map<Digest, nat>, refs: multiset<Digest>) {
    forall d: Digest :: refs[d] == if d in refcount then refcount[d] else 0
  }

  lemma {:induction false} LiveRefsAlive(actions: seq<ActionFile>, gone: seq<bool>, d: Digest)
    requires |gone| == |actions|
    ensures d in LiveRefs(actions, gone) <==> Alive(actions, gone, d)
  {
    if actions == [] {
    } else {
      var n := |actions| - 1;
      LiveRefsAlive(actions[..n], gone[..n], d);
      if Alive(actions[..n], gone[..n], d) {
        var a :| 0 <= a < n && !gone[..n][a] && d in actions[..n][a].refs;
        assert !gone[a] && d in actions[a].refs;
      }
      if Alive(actions, gone, d) {
        var a :| 0 <= a < |actions| && !gone[a] && d in actions[a].refs;
        if a < n {
          assert !gone[..n][a] && d in actions[..n][a].refs;
        }
      }
    }
  }

  lemma {:induction false} LiveRefsEvict(actions: seq<ActionFile>, gone: seq<bool>, a: nat)
    requires |gone| == |actions| && a < |actions| && !gone[a]
    ensures LiveRefs(actions, gone) == LiveRefs(actions, gone[a := true]) + multiset(actions[a].refs)
  {
    var n := |actions| - 1;
    if a < n {
      LiveRefsEvict(actions[..n], gone[..n], a);
      assert gone[..n][a := true] == gone[a := true][..n];
    } else {
      assert gone[..n] == gone[a := true][..n];
    }
  }

  lemma {:induction false} KeptEvict(sizes: seq<nat>, gone: seq<bool>, i: nat)
    requires |gone| == |sizes| && i < |sizes| && !gone[i]
    ensures Kept(sizes, gone) == Kept(sizes, gone[i := true]) + sizes[i]
  {
    var n := |sizes| - 1;
    if i < n {
      KeptEvict(sizes[..n], gone[..n], i);
      assert gone[..n][i := true] == gone[i := true][..n];
    } else {
      assert gone[..n] == gone[i := true][..n];
    }
  }

  // ----- How one more eviction changes the plan ----------------------------------

  /** Before any action goes, the released blobs are none. */
  lemma NothingReleased(s: Snapshot, i: nat)
    requires i < |s.blobs|
    ensures !s.Released(0, i)
  {
    if s.blobs[i].digest.Some? && Referenced(s.actions, s.blobs[i].digest.value) {
      var a :| 0 <= a < |s.actions| && s.blobs[i].digest.value in s.actions[a].refs;
      assert !s.ActionMask(0)[a];
    }
  }

  lemma OrphanStep(s: Snapshot, k: nat)
    requires s.Valid() && k < |s.orphans|
    ensures var i := s.orphans[k]; i < |s.blobs| && !s.BlobMask(k, 0)[i]
                                   && s.BlobMask(k + 1, 0) == s.BlobMask(k, 0)[i := true]
  {
    var i := s.orphans[k];
    assert i < |BlobKeys(s.blobs)|;
    assert i !in s.orphans[..k];
    NothingReleased(s, i);
    assert s.orphans[..k + 1] == s.orphans[..k] + [i];
  }

  lemma ActionStep(s: Snapshot, m: nat)
    requires s.Valid() && m < |s.order|
    ensures var a := s.order[m]; a < |s.actions| && !s.ActionMask(m)[a]
                                 && s.ActionMask(m + 1) == s.ActionMask(m)[a := true]
  {
    var a := s.order[m];
    assert a < |ActionKeys(s.actions)|;
    assert a !in s.order[..m];
    assert s.order[..m + 1] == s.order[..m] + [a];
  }

  // ----- The pass ----------------------------------------------------------------

  /** Counts one action's references on top of `refcount`. */
  method AddReferences(refcount: map<Digest, nat>, refs: seq<Digest>, ghost before: multiset<Digest>)
    returns (counts: map<Digest, nat>)
    requires Counts(refcount, before)
    ensures Counts(counts, before + multiset(refs))
  {
    counts := refcount;
    for r := 0 to |refs|
      invariant Counts(counts, before + multiset(refs[..r]))
    {
      var d := refs[r];
      assert refs[..r + 1] == refs[..r] + [d];
      counts := counts[d := (if d in counts then counts[d] else 0) + 1];
    }
    assert refs[..|refs|] == refs;
  }

  method CountReferences(actions: seq<ActionFile>) returns (refcount: map<Digest, nat>)
    ensures Counts(refcount, LiveRefs(actions, seq(|actions|, _ => false)))
  {
    refcount := map[];
    ghost var none := seq(|actions|, _ => false);
    for a := 0 to |actions|
      invariant Counts(refcount, LiveRefs(actions[..a], none[..a]))
    {
      assert actions[..a + 1][..a] == actions[..a] && none[..a + 1][..a] == none[..a];
      refcount := AddReferences(refcount, actions[a].refs, LiveRefs(actions[..a], none[..a]));
    }
    assert actions[..|actions|] == actions && none[..|actions|] == none;
  }

  /** `index` finds the indexed file of each digest. */
  ghost predicate IndexOf(blobs: seq<BlobFile>, index: map<Digest, nat>) {
    && (forall d :: d in index ==>
          index[d] < |blobs| && Indexed(blobs, index[d]) && blobs[index[d]].digest == Some(d))
    && (forall i :: 0 <= i < |blobs| && Indexed(blobs, i) ==>
          blobs[i].digest.value in index && index[blobs[i].digest.value] == i)
  }

  method IndexBlobs(blobs: seq<BlobFile>) returns (index: map<Digest, nat>)
    ensures IndexOf(blobs, index)
  {
    index := map[];
    for n := 0 to |blobs|
      invariant forall d :: d in index ==> index[d] < n && blobs[index[d]].digest == Some(d)
      invariant forall i :: 0 <= i < n && blobs[i].digest.Some? ==>
                              blobs[i].digest.value in index && i <= index[blobs[i].digest.value]
    {
      if blobs[n].digest.Some? {
        index := index[blobs[n].digest.value := n];
      }
    }
  }

  method FindOrphans(blobs: seq<BlobFile>, actions: seq<ActionFile>, refcount: map<Digest, nat>)
    returns (order: seq<nat>)
    requires Counts(refcount, LiveRefs(actions, seq(|actions|, _ => false)))
    ensures OrphanOrder(blobs, actions, order)
  {
    var orphans := [];
    for n := 0 to |blobs|
      invariant forall i, j :: 0 <= i < j < |orphans| ==> orphans[i] < orphans[j]
      invariant forall i :: 0 <= i < |orphans| ==> 0 <= orphans[i] < n
      invariant forall i :: 0 <= i < n ==> (i in orphans <==> Orphan(blobs, actions, i))
    {
      var orphan := true;
      if blobs[n].digest.Some? {
        var d := blobs[n].digest.value;
        orphan := (if d in refcount then refcount[d] else 0) == 0;
        LiveRefsAlive(actions, seq(|actions|, _ => false), d);
      }
      if orphan {
        orphans := orphans + [n];
      }
    }
    order := SortByModified(BlobKeys(blobs), orphans);
  }

  method OrderActions(actions: seq<ActionFile>) returns (order: seq<nat>)
    ensures ActionOrder(actions, order)
  {
    var all := seq(|actions|, i => i);
    forall i | 0 <= i < |actions| ensures i in all {
      assert all[i] == i;
    }
    order := SortByModified(ActionKeys(actions), all);
  }

  function TotalBytes(blobs: seq<BlobFile>, actions: seq<ActionFile>): (total: nat) {
    Kept(BlobSizes(blobs), seq(|blobs|, _ => false)) + Kept(ActionSizes(actions), seq(|actions|, _ => false))
  }

  /** Evicts the oldest orphans until the budget is met or none is left. */
  method EvictOrphans(s: Snapshot, max: nat) returns (blobGone: seq<bool>, bytes: nat, k: nat)
    requires s.Valid()
    ensures k <= |s.orphans| && blobGone == s.BlobMask(k, 0) && bytes == s.After(k, 0)
    ensures forall j :: 0 <= j < k ==> s.After(j, 0) > max
    ensures k < |s.orphans| ==> bytes <= max
  {
    blobGone := seq(|s.blobs|, _ => false);
    forall i | 0 <= i < |s.blobs| ensures !s.BlobGone(0, 0, i) {
      NothingReleased(s, i);
    }
    assert blobGone == s.BlobMask(0, 0);
    bytes := TotalBytes(s.blobs, s.actions);
    assert seq(|s.actions|, _ => false) == s.ActionMask(0);
    k := 0;
    while k < |s.orphans|
      invariant k <= |s.orphans| && blobGone == s.BlobMask(k, 0) && bytes == s.After(k, 0)
      invariant forall j :: 0 <= j < k ==> s.After(j, 0) > max
    {
      if bytes <= max {
        break;
      }
      var i := s.orphans[k];
      OrphanStep(s, k);
      KeptEvict(BlobSizes(s.blobs), blobGone, i);
      blobGone := blobGone[i := true];
      bytes := SaturatingSub(bytes, s.blobs[i].size);
      k := k + 1;
    }
  }

  /** The references still counted when `r` references of the action evicted at `m` are dropped. */
  ghost function Counted(s: Snapshot, m: nat, r: nat): (refs: multiset<Digest>)
    requires s.Valid() && m < |s.order| && r <= |s.actions[s.order[m]].refs|
  {
    LiveRefs(s.actions, s.ActionMask(m + 1)) + multiset(s.actions[s.order[m]].refs[r..])
  }

  /** The blobs gone at that point: a digest already dropped and no longer counted is released. */
  ghost predicate Releasing(s: Snapshot, k: nat, m: nat, r: nat, i: nat)
    requires s.Valid() && k <= |s.orphans| && m < |s.order|
    requires r <= |s.actions[s.order[m]].refs| && i < |s.blobs|
  {
    || s.BlobGone(k, m, i)
    || (&& Indexed(s.blobs, i)
        && s.blobs[i].digest.value in s.actions[s.order[m]].refs[..r]
        && s.blobs[i].digest.value !in Counted(s, m, r))
  }

  /** Dropping reference `r` lowers the count of its digest by one. */
  lemma CountedDrop(s: Snapshot, m: nat, r: nat)
    requires s.Valid() && m < |s.order| && r < |s.actions[s.order[m]].refs|
    ensures Counted(s, m, r) == Counted(s, m, r + 1) + multiset{s.actions[s.order[m]].refs[r]}
  {
    var refs := s.actions[s.order[m]].refs;
    assert refs[r..] == [refs[r]] + refs[r + 1..];
  }

  /** Dropping reference `r` releases at most the blob of its digest. */
  lemma DropReference(s: Snapshot, k: nat, m: nat, r: nat, i: nat)
    requires s.Valid() && k <= |s.orphans| && m < |s.order|
    requires r < |s.actions[s.order[m]].refs| && i < |s.blobs|
    ensures Releasing(s, k, m, r + 1, i) <==>
              || Releasing(s, k, m, r, i)
              || (&& Indexed(s.blobs, i)
                  && s.blobs[i].digest.value == s.actions[s.order[m]].refs[r]
                  && s.blobs[i].digest.value !in Counted(s, m, r + 1))
  {
    CountedDrop(s, m, r);
    var refs := s.actions[s.order[m]].refs;
    assert refs[..r + 1] == refs[..r] + [refs[r]];
  }

  /** Once every reference is dropped, what was released is what the plan releases. */
  lemma AllDropped(s: Snapshot, k: nat, m: nat, i: nat)
    requires s.Valid() && k <= |s.orphans| && m < |s.order| && i < |s.blobs|
    ensures Releasing(s, k, m, |s.actions[s.order[m]].refs|, i) <==> s.BlobGone(k, m + 1, i)
  {
    var a := s.order[m];
    var refs := s.actions[a].refs;
    ActionStep(s, m);
    LiveRefsEvict(s.actions, s.ActionMask(m), a);
    assert refs[..|refs|] == refs;
    if s.blobs[i].digest.Some? {
      var d := s.blobs[i].digest.value;
      LiveRefsAlive(s.actions, s.ActionMask(m), d);
      LiveRefsAlive(s.actions, s.ActionMask(m + 1), d);
      if d in refs {
        assert Referenced(s.actions, d);
      }
    }
  }

  /** What the release loop keeps: exact counts, exactly the released blobs, exact bytes. */
  ghost predicate Dropping(s: Snapshot, k: nat, m: nat, r: nat,
                           counts: map<Digest, nat>, gone: seq<bool>, left: nat)
    requires s.Valid() && k <= |s.orphans| && m < |s.order|
    requires r <= |s.actions[s.order[m]].refs|
  {
    && Counts(counts, Counted(s, m, r))
    && |gone| == |s.blobs|
    && (forall i :: 0 <= i < |s.blobs| ==> (gone[i] <==> Releasing(s, k, m, r, i)))
    && left == Kept(BlobSizes(s.blobs), gone) + Kept(ActionSizes(s.actions), s.ActionMask(m + 1))
  }

  method DropOne(s: Snapshot, ghost k: nat, m: nat, r: nat, index: map<Digest, nat>,
                 counts: map<Digest, nat>, gone: seq<bool>, left: nat)
    returns (counts': map<Digest, nat>, gone': seq<bool>, left': nat)
    requires s.Valid() && k <= |s.orphans| && m < |s.order|
    requires r < |s.actions[s.order[m]].refs|
    requires IndexOf(s.blobs, index) && Dropping(s, k, m, r, counts, gone, left)
    ensures Dropping(s, k, m, r + 1, counts', gone', left')
  {
    hide Counts, Counted, Releasing, s.ActionMask;
    counts', gone', left' := counts, gone, left;
    var d := s.actions[s.order[m]].refs[r];
    CountedDrop(s, m, r);
    LessOne(counts, Counted(s, m, r + 1), d);
    counts' := counts[d := SaturatingSub(counts[d], 1)];
    if counts'[d] == 0 && d in index && !gone[index[d]] {
      KeptEvict(BlobSizes(s.blobs), gone, index[d]);
      gone' := gone[index[d] := true];
      left' := SaturatingSub(left, s.blobs[index[d]].size);
    }
    forall i | 0 <= i < |s.blobs| ensures gone'[i] <==> Releasing(s, k, m, r + 1, i) {
      DroppedMask(s, k, m, r, index, counts', gone, gone', i);
    }
  }

  /** One occurrence less is a count less, which was not zero. */
  lemma LessOne(counts: map<Digest, nat>, refs: multiset<Digest>, d: Digest)
    requires Counts(counts, refs + multiset{d})
    ensures d in counts && counts[d] > 0 && Counts(counts[d := SaturatingSub(counts[d], 1)], refs)
  {
    assert (refs + multiset{d})[d] == refs[d] + 1;
    assert forall e: Digest :: e != d ==> (refs + multiset{d})[e] == refs[e];
  }

  lemma DroppedMask(s: Snapshot, k: nat, m: nat, r: nat, index: map<Digest, nat>, counts: map<Digest, nat>,
                    gone: seq<bool>, gone': seq<bool>, i: nat)
    requires s.Valid() && k <= |s.orphans| && m < |s.order|
    requires r < |s.actions[s.order[m]].refs| && IndexOf(s.blobs, index)
    requires |gone| == |gone'| == |s.blobs| && i < |s.blobs|
    requires Counts(counts, Counted(s, m, r + 1)) && (gone[i] <==> Releasing(s, k, m, r, i))
    requires var d := s.actions[s.order[m]].refs[r];
             gone'[i] == (gone[i] || (d in counts && counts[d] == 0 && d in index && index[d] == i))
    requires s.actions[s.order[m]].refs[r] in counts
    ensures gone'[i] <==> Releasing(s, k, m, r + 1, i)
  {
    hide s.Valid, Counted, Releasing;
    DropReference(s, k, m, r, i);
  }

  /** Drops the references of the action evicted at `m`, collecting each blob whose count reaches zero. */
  method ReleaseBlobs(s: Snapshot, ghost k: nat, m: nat, index: map<Digest, nat>,
                      refcount: map<Digest, nat>, blobGone: seq<bool>, bytes: nat)
    returns (counts: map<Digest, nat>, gone: seq<bool>, left: nat)
    requires s.Valid() && k <= |s.orphans| && m < |s.order| && IndexOf(s.blobs, index)
    requires Counts(refcount, LiveRefs(s.actions, s.ActionMask(m)))
    requires blobGone == s.BlobMask(k, m)
    requires bytes == Kept(BlobSizes(s.blobs), blobGone) + Kept(ActionSizes(s.actions), s.ActionMask(m + 1))
    ensures Counts(counts, LiveRefs(s.actions, s.ActionMask(m + 1)))
    ensures gone == s.BlobMask(k, m + 1)
    ensures left == s.After(k, m + 1)
  {
    var refs := s.actions[s.order[m]].refs;
    counts, gone, left := refcount, blobGone, bytes;
    ActionStep(s, m);
    LiveRefsEvict(s.actions, s.ActionMask(m), s.order[m]);
    assert refs[0..] == refs;
    for r := 0 to |refs|
      invariant Dropping(s, k, m, r, counts, gone, left)
    {
      counts, gone, left := DropOne(s, k, m, r, index, counts, gone, left);
    }
    assert Counted(s, m, |refs|) == LiveRefs(s.actions, s.ActionMask(m + 1));
    forall i | 0 <= i < |s.blobs| ensures gone[i] == s.BlobGone(k, m + 1, i) {
      AllDropped(s, k, m, i);
    }
    assert gone == s.BlobMask(k, m + 1);
  }

  /** What the action loop keeps: after `m` evictions every count, both masks and the total are exact. */
  ghost predicate Evicting(s: Snapshot, k: nat, m: nat, counts: map<Digest, nat>,
                           gone: seq<bool>, actionGone: seq<bool>, left: nat)
    requires s.Valid() && k <= |s.orphans| && m <= |s.order|
  {
    && Counts(counts, LiveRefs(s.actions, s.ActionMask(m)))
    && gone == s.BlobMask(k, m)
    && actionGone == s.ActionMask(m)
    && left == s.After(k, m)
  }

  method EvictAction(s: Snapshot, ghost k: nat, m: nat, index: map<Digest, nat>, counts: map<Digest, nat>,
                     gone: seq<bool>, actionGone: seq<bool>, left: nat)
    returns (counts': map<Digest, nat>, gone': seq<bool>, actionGone': seq<bool>, left': nat)
    requires s.Valid() && k <= |s.orphans| && m < |s.order| && IndexOf(s.blobs, index)
    requires Evicting(s, k, m, counts, gone, actionGone, left)
    ensures Evicting(s, k, m + 1, counts', gone', actionGone', left')
  {
    var a := s.order[m];
    ActionStep(s, m);
    KeptEvict(ActionSizes(s.actions), actionGone, a);
    actionGone' := actionGone[a := true];
    left' := SaturatingSub(left, s.actions[a].size);
    counts', gone', left' := ReleaseBlobs(s, k, m, index, counts, gone, left');
  }

  /** Evicts the oldest actions until the budget is met or none is left. */
  method EvictActions(s: Snapshot, max: nat, k: nat, index: map<Digest, nat>,
                      refcount: map<Digest, nat>, blobGone: seq<bool>, bytes: nat)
    returns (gone: seq<bool>, actionGone: seq<bool>, left: nat, m: nat)
    requires s.Valid() && k <= |s.orphans| && IndexOf(s.blobs, index)
    requires Counts(refcount, LiveRefs(s.actions, seq(|s.actions|, _ => false)))
    requires blobGone == s.BlobMask(k, 0) && bytes == s.After(k, 0)
    ensures m <= |s.order| && gone == s.BlobMask(k, m) && actionGone == s.ActionMask(m)
    ensures left == s.After(k, m)
    ensures forall j :: 0 <= j < m ==> s.After(k, j) > max
    ensures m < |s.order| ==> left <= max
  {
    gone, left, m := blobGone, bytes, 0;
    actionGone := seq(|s.actions|, _ => false);
    assert actionGone == s.ActionMask(0);
    var counts := refcount;
    while m < |s.order|
      invariant m <= |s.order| && Evicting(s, k, m, counts, gone, actionGone, left)
      invariant forall j :: 0 <= j < m ==> s.After(k, j) > max
    {
      if left <= max {
        break;
      }
      counts, gone, actionGone, left := EvictAction(s, k, m, index, counts, gone, actionGone, left);
      m := m + 1;
    }
  }

  datatype Plan = Plan(snapshot: Snapshot, blobGone: seq<bool>, actionGone: seq<bool>,
                       bytesBefore: nat, bytesAfter: nat, orphansEvicted: nat, actionsEvicted: nat)
  {
    /** What a pass over `blobs` and `actions` with the budget `max` promises. */
    ghost predicate Correct(blobs: seq<BlobFile>, actions: seq<ActionFile>, max: nat) {
      && snapshot.blobs == blobs && snapshot.actions == actions && snapshot.Valid()
      && orphansEvicted <= |snapshot.orphans| && actionsEvicted <= |snapshot.order|
      && blobGone == snapshot.BlobMask(orphansEvicted, actionsEvicted)
      && actionGone == snapshot.ActionMask(actionsEvicted)
      && bytesBefore == snapshot.After(0, 0)
      && bytesAfter == snapshot.After(orphansEvicted, actionsEvicted)
      && snapshot.Shortest(max, orphansEvicted, actionsEvicted)
    }
  }

  /** `Cas::gc` up to the deletion: which files go, and the bytes left. */
  method PlanEviction(blobs: seq<BlobFile>, actions: seq<ActionFile>, max: nat) returns (plan: Plan)
    ensures plan.Correct(blobs, actions, max)
  {
    var refcount := CountReferences(actions);
    var orphans := FindOrphans(blobs, actions, refcount);
    var order := OrderActions(actions);
    var index := IndexBlobs(blobs);
    var s := Snapshot(blobs, actions, orphans, order);
    var blobGone, bytes, k := EvictOrphans(s, max);
    var gone, actionGone, left, m := blobGone, seq(|actions|, _ => false), bytes, 0;
    assert actionGone == s.ActionMask(0);
    if bytes > max {
      gone, actionGone, left, m := EvictActions(s, max, k, index, refcount, blobGone, bytes);
    }
    TotalIsBefore(s);
    plan := Plan(s, gone, actionGone, TotalBytes(blobs, actions), left, k, m);
  }

  lemma TotalIsBefore(s: Snapshot)
    ensures TotalBytes(s.blobs, s.actions) == s.After(0, 0)
  {
    forall i | 0 <= i < |s.blobs| ensures !s.BlobGone(0, 0, i) {
      NothingReleased(s, i);
    }
    assert seq(|s.blobs|, _ => false) == s.BlobMask(0, 0);
    assert seq(|s.actions|, _ => false) == s.ActionMask(0);
  }

  // ----- What the plan means -----------------------------------------------------

  /** No blob that a surviving action references is removed. */
  lemma SurvivorsKeepTheirBlobs(plan: Plan, blobs: seq<BlobFile>, actions: seq<ActionFile>, max: nat, a: nat, i: nat)
    requires plan.Correct(blobs, actions, max)
    requires a < |actions| && !plan.actionGone[a]
    requires i < |blobs| && blobs[i].digest.Some? && blobs[i].digest.value in actions[a].refs
    ensures !plan.blobGone[i]
  {
    assert Alive(actions, plan.actionGone, blobs[i].digest.value);
    assert i in plan.snapshot.orphans ==> Orphan(blobs, actions, i);
  }

  /** At most one file per digest, as the store writes them. */
  ghost predicate OneFilePerDigest(blobs: seq<BlobFile>) {
    forall i, j :: 0 <= i < j < |blobs| && blobs[i].digest.Some? ==> blobs[i].digest != blobs[j].digest
  }

  /** With one file per digest a referenced blob is removed exactly when no surviving action references it. */
  lemma ReferencedBlobRemovedIff(plan: Plan, blobs: seq<BlobFile>, actions: seq<ActionFile>, max: nat, i: nat)
    requires plan.Correct(blobs, actions, max) && OneFilePerDigest(blobs)
    requires i < |blobs| && !Orphan(blobs, actions, i)
    ensures plan.blobGone[i] <==> !Alive(actions, plan.actionGone, blobs[i].digest.value)
  {
    assert Indexed(blobs, i);
    assert i !in plan.snapshot.orphans;
  }

  /** Referenced files that share their digest with a file scanned later. */
  ghost function StrandedMask(blobs: seq<BlobFile>, actions: seq<ActionFile>): (gone: seq<bool>)
    ensures |gone| == |blobs|
  {
    seq(|blobs|, i requires 0 <= i < |blobs| => Orphan(blobs, actions, i) || Indexed(blobs, i))
  }

  ghost function Stranded(blobs: seq<BlobFile>, actions: seq<ActionFile>): (bytes: nat) {
    Kept(BlobSizes(blobs), StrandedMask(blobs, actions))
  }

  lemma {:induction false} KeptMonotone(sizes: seq<nat>, fewer: seq<bool>, more: seq<bool>)
    requires |fewer| == |more| == |sizes|
    requires forall i :: 0 <= i < |sizes| && fewer[i] ==> more[i]
    ensures Kept(sizes, more) <= Kept(sizes, fewer)
  {
    if sizes == [] {
    } else {
      var n := |sizes| - 1;
      KeptMonotone(sizes[..n], fewer[..n], more[..n]);
    }
  }

  lemma {:induction false} KeptNothing(sizes: seq<nat>, gone: seq<bool>)
    requires |gone| == |sizes| && forall i :: 0 <= i < |sizes| ==> gone[i]
    ensures Kept(sizes, gone) == 0
  {
    if sizes == [] {
    } else {
      KeptNothing(sizes[..|sizes| - 1], gone[..|sizes| - 1]);
    }
  }

  /** The stranded files outlive every plan. */
  lemma StrandedSurvive(s: Snapshot, k: nat, m: nat)
    requires s.Valid() && k <= |s.orphans| && m <= |s.order|
    ensures s.After(k, m) >= Stranded(s.blobs, s.actions)
  {
    forall i | 0 <= i < |s.blobs| && s.BlobGone(k, m, i) ensures StrandedMask(s.blobs, s.actions)[i] {
      assert i in s.orphans[..k] ==> i in s.orphans;
    }
    KeptMonotone(BlobSizes(s.blobs), s.BlobMask(k, m), StrandedMask(s.blobs, s.actions));
  }

  /** When everything evictable is evicted, exactly the stranded files are left. */
  lemma OnlyStrandedLeft(s: Snapshot)
    requires s.Valid()
    ensures s.After(|s.orphans|, |s.order|) == Stranded(s.blobs, s.actions)
  {
    var k, m := |s.orphans|, |s.order|;
    assert s.orphans[..k] == s.orphans && s.order[..m] == s.order;
    KeptNothing(ActionSizes(s.actions), s.ActionMask(m));
    forall i | 0 <= i < |s.blobs| ensures s.BlobGone(k, m, i) == StrandedMask(s.blobs, s.actions)[i] {
      assert i in s.orphans <==> Orphan(s.blobs, s.actions, i);
    }
    assert s.BlobMask(k, m) == StrandedMask(s.blobs, s.actions);
  }

  /** The pass ends within its budget exactly when the stranded files alone fit it. */
  lemma BudgetMetIff(plan: Plan, blobs: seq<BlobFile>, actions: seq<ActionFile>, max: nat)
    requires plan.Correct(blobs, actions, max)
    ensures plan.bytesAfter <= max <==> Stranded(blobs, actions) <= max
  {
    StrandedSurvive(plan.snapshot, plan.orphansEvicted, plan.actionsEvicted);
    if plan.bytesAfter > max {
      OnlyStrandedLeft(plan.snapshot);
    }
  }

  /** With one file per digest nothing is stranded, so every pass ends within its budget. */
  lemma BudgetMet(plan: Plan, blobs: seq<BlobFile>, actions: seq<ActionFile>, max: nat)
    requires plan.Correct(blobs, actions, max) && OneFilePerDigest(blobs)
    ensures plan.bytesAfter <= max
  {
    assert forall i :: 0 <= i < |blobs| && blobs[i].digest.Some? ==> Indexed(blobs, i);
    KeptNothing(BlobSizes(blobs), StrandedMask(blobs, actions));
    BudgetMetIff(plan, blobs, actions, max);
  }

  /** Two files of one digest: the pass evicts everything it can and still exceeds its budget. */
  lemma BudgetMissed(d: Digest)
    ensures var blobs := [BlobFile("x/aa/b", Some(d), 5, 0), BlobFile("aa/b", Some(d), 5, 0)];
            var actions := [ActionFile("a.json", 1, 0, [d])];
            forall plan: Plan :: plan.Correct(blobs, actions, 0) ==> plan.bytesAfter > 0
  {
    var blobs := [BlobFile("x/aa/b", Some(d), 5, 0), BlobFile("aa/b", Some(d), 5, 0)];
    var actions := [ActionFile("a.json", 1, 0, [d])];
    assert d in actions[0].refs;
    assert blobs[1].digest == blobs[0].digest;
    assert !StrandedMask(blobs, actions)[0];
    assert Kept(BlobSizes(blobs)[..1], StrandedMask(blobs, actions)[..1]) == 5;
    forall plan: Plan | plan.Correct(blobs, actions, 0) ensures plan.bytesAfter > 0 {
      BudgetMetIff(plan, blobs, actions, 0);
    }
  }

  /** There is one oldest-first listing of a set of files. */
  lemma {:induction false} OneOrder(keys: seq<nat>, p: seq<nat>, q: seq<nat>)
    requires OldestFirst(keys, p) && OldestFirst(keys, q)
    requires forall x :: x in p <==> x in q
    ensures p == q
  {
    assert forall i :: 0 <= i < |q| ==> q[i] in p;
    assert forall i :: 0 <= i < |p| ==> p[i] in q;
    if p == [] {
    } else {
      assert p[0] in q;
      assert q[0] in p;
      assert p[0] == q[0];
      forall x ensures x in p[1..] <==> x in q[1..] {
        assert x in p <==> x == p[0] || x in p[1..];
        assert x in q <==> x == q[0] || x in q[1..];
      }
      OneOrder(keys, p[1..], q[1..]);
    }
  }

  /** The promise determines the plan: which files go, in which order, and both totals. */
  lemma PlanDetermined(p: Plan, q: Plan, blobs: seq<BlobFile>, actions: seq<ActionFile>, max: nat)
    requires p.Correct(blobs, actions, max) && q.Correct(blobs, actions, max)
    ensures p == q
  {
    var s, t := p.snapshot, q.snapshot;
    forall x ensures x in s.orphans <==> x in t.orphans {
      assert x in s.orphans ==> x < |BlobKeys(blobs)|;
      assert x in t.orphans ==> x < |BlobKeys(blobs)|;
    }
    OneOrder(BlobKeys(blobs), s.orphans, t.orphans);
    forall x ensures x in s.order <==> x in t.order {
      assert x in s.order ==> x < |ActionKeys(actions)|;
      assert x in t.order ==> x < |ActionKeys(actions)|;
    }
    OneOrder(ActionKeys(actions), s.order, t.order);
    assert s == t;
  }

  // ----- Deletion ----------------------------------------------------------------

  function GonePaths(paths: seq<string>, gone: seq<bool>): (victims: seq<string>)
    requires |paths| == |gone|
    ensures forall x :: x in victims <==> exists i :: 0 <= i < |paths| && gone[i] && paths[i] == x
  {
    if paths == [] then []
    else
      var n := |paths| - 1;
      assert paths == paths[..n] + [paths[n]] && gone == gone[..n] + [gone[n]];
      GonePaths(paths[..n], gone[..n]) + if gone[n] then [paths[n]] else []
  }

  function BlobPaths(blobs: seq<BlobFile>): (paths: seq<string>) {
    seq(|blobs|, i requires 0 <= i < |blobs| => blobs[i].path)
  }

  function ActionPaths(actions: seq<ActionFile>): (paths: seq<string>) {
    seq(|actions|, i requires 0 <= i < |actions| => actions[i].path)
  }

  /** The files to delete, evicted actions before the blobs they released. */
  function Victims(plan: Plan): (victims: seq<string>)
    requires |plan.actionGone| == |plan.snapshot.actions| && |plan.blobGone| == |plan.snapshot.blobs|
  {
    GonePaths(ActionPaths(plan.snapshot.actions), plan.actionGone)
    + GonePaths(BlobPaths(plan.snapshot.blobs), plan.blobGone)
  }

  /** The snapshot lists distinct files. */
  ghost predicate DistinctFiles(blobs: seq<BlobFile>, actions: seq<ActionFile>) {
    && (forall i, j :: 0 <= i < j < |blobs| ==> blobs[i].path != blobs[j].path)
    && (forall i, j :: 0 <= i < j < |actions| ==> actions[i].path != actions[j].path)
    && (forall i, j :: 0 <= i < |blobs| && 0 <= j < |actions| ==> blobs[i].path != actions[j].path)
  }

  /** Every snapshot action still on disk has every blob it references that was on disk before. */
  ghost predicate Restorable(blobs: seq<BlobFile>, actions: seq<ActionFile>, before: set<string>, after: set<string>) {
    forall a, i ::
      && 0 <= a < |actions| && actions[a].path in after
      && 0 <= i < |blobs| && blobs[i].digest.Some? && blobs[i].digest.value in actions[a].refs
      && blobs[i].path in before
      ==> blobs[i].path in after
  }

  /** A blob file is a victim only when the plan removes it, and never among the actions. */
  lemma BlobVictim(plan: Plan, blobs: seq<BlobFile>, actions: seq<ActionFile>, max: nat, i: nat)
    requires plan.Correct(blobs, actions, max) && DistinctFiles(blobs, actions)
    requires i < |blobs|
    ensures blobs[i].path !in GonePaths(ActionPaths(actions), plan.actionGone)
    ensures blobs[i].path in GonePaths(BlobPaths(blobs), plan.blobGone) ==> plan.blobGone[i]
  {
    hide plan.Correct, GonePaths;
    assert |plan.blobGone| == |blobs| && |plan.actionGone| == |actions| by {
      PlanLengths(plan, blobs, actions, max);
    }
    var paths := BlobPaths(blobs);
    if paths[i] in GonePaths(paths, plan.blobGone) {
      var j :| 0 <= j < |paths| && plan.blobGone[j] && paths[j] == paths[i];
      assert blobs[j].path == blobs[i].path;
    }
  }

  lemma PlanLengths(plan: Plan, blobs: seq<BlobFile>, actions: seq<ActionFile>, max: nat)
    requires plan.Correct(blobs, actions, max)
    ensures |plan.blobGone| == |blobs| && |plan.actionGone| == |actions|
  {
  }

  /** A prefix that holds something of the second part holds all of the first. */
  lemma PrefixCut(first: seq<string>, second: seq<string>, n: nat, x: string)
    requires n <= |first + second| && x in (first + second)[..n] && x !in first
    ensures x in second && forall y :: y in first ==> y in (first + second)[..n]
  {
    var all := (first + second)[..n];
    var j :| 0 <= j < n && all[j] == x;
    assert forall t :: 0 <= t < |first| && t < n ==> all[t] == first[t] && first[t] in first;
    assert second[j - |first|] == x;
    assert all[..|first|] == first;
  }

  /** Deletion may stop after any victim without breaking an action that is left. */
  lemma AnyPrefixRestorable(plan: Plan, blobs: seq<BlobFile>, actions: seq<ActionFile>, max: nat,
                            n: nat, before: set<string>)
    requires plan.Correct(blobs, actions, max) && DistinctFiles(blobs, actions)
    requires n <= |Victims(plan)|
    ensures Restorable(blobs, actions, before, before - (set x | x in Victims(plan)[..n]))
  {
    var deleted := set x | x in Victims(plan)[..n];
    var first := GonePaths(ActionPaths(actions), plan.actionGone);
    var second := GonePaths(BlobPaths(blobs), plan.blobGone);
    forall a, i |
      && 0 <= a < |actions| && actions[a].path in before - deleted
      && 0 <= i < |blobs| && blobs[i].digest.Some? && blobs[i].digest.value in actions[a].refs
      && blobs[i].path in before
      ensures blobs[i].path !in deleted
    {
      if blobs[i].path in deleted {
        BlobVictim(plan, blobs, actions, max, i);
        PrefixCut(first, second, n, blobs[i].path);
        assert ActionPaths(actions)[a] == actions[a].path;
        assert !plan.actionGone[a];
        SurvivorsKeepTheirBlobs(plan, blobs, actions, max, a, i);
      }
    }
  }

  /** The files of the store; removing a `stuck` one fails with an I/O error. */
  class Disk {
    var files: set<string>
    const stuck: set<string>

    constructor (files: set<string>, stuck: set<string>)
      ensures this.files == files && this.stuck == stuck
    {
      this.files := files;
      this.stuck := stuck;
    }

    /** Deletes in order; a missing file is skipped and the first I/O error ends the pass. */
    method RemoveFiles(paths: seq<string>) returns (ok: bool, n: nat)
      modifies this
      ensures n <= |paths| && files == old(files) - (set x | x in paths[..n])
      ensures ok <==> n == |paths|
      ensures ok <==> forall x :: x in paths && x in old(files) ==> x !in stuck
      ensures !ok ==> n < |paths| && paths[n] in old(files) && paths[n] in stuck
      ensures forall x :: x in paths[..n] && x in old(files) ==> x !in stuck
    {
      n := 0;
      while n < |paths|
        invariant n <= |paths| && files == old(files) - (set x | x in paths[..n])
        invariant forall x :: x in paths[..n] && x in old(files) ==> x !in stuck
      {
        assert paths[..n + 1] == paths[..n] + [paths[n]];
        if paths[n] in files {
          if paths[n] in stuck {
            assert paths[n] in paths;
            return false, n;
          }
          files := files - {paths[n]};
        }
        n := n + 1;
      }
      assert paths[..n] == paths;
      ok := true;
    }

    /** `Cas::gc`: the report, and on every outcome a store whose actions are still restorable. A pass that is
        not a dry run fails exactly when a victim that is there cannot be removed, and then the victims before
        the first such one are gone. */
    method Collect(blobs: seq<BlobFile>, actions: seq<ActionFile>, max: nat, dryRun: bool)
      returns (report: Option<Report>, plan: Plan)
      requires DistinctFiles(blobs, actions)
      modifies this
      ensures plan.Correct(blobs, actions, max)
      ensures Restorable(blobs, actions, old(files), files)
      ensures dryRun ==> files == old(files)
      ensures report.Some? <==> dryRun || forall x :: x in Victims(plan) && x in old(files) ==> x !in stuck
      ensures !dryRun && report.Some? ==> Evicted(plan, blobs, actions, old(files), files)
      ensures report.None? ==>
                exists n :: 0 <= n < |Victims(plan)| && StopsAt(Victims(plan), n, old(files), files, stuck)
      ensures report.Some? ==>
                report.value == Report(plan.bytesBefore, plan.bytesAfter,
                                       GoneCount(plan.actionGone) + GoneCount(plan.blobGone), dryRun)
    {
      plan := PlanEviction(blobs, actions, max);
      var victims := Victims(plan);
      AnyPrefixRestorable(plan, blobs, actions, max, 0, files);
      assert files - (set x | x in victims[..0]) == files;
      VictimCount(plan);
      if !dryRun {
        var ok, n := RemoveFiles(victims);
        AnyPrefixRestorable(plan, blobs, actions, max, n, old(files));
        if !ok {
          assert StopsAt(victims, n, old(files), files, stuck);
          return None, plan;
        }
        assert victims[..n] == victims;
        AllEvicted(plan, blobs, actions, max, old(files), files);
      }
      report := Some(Report(plan.bytesBefore, plan.bytesAfter, |victims|, dryRun));
    }
  }

  /** Victim `n` is the first one that is there and cannot be removed; exactly those before it are gone. */
  ghost predicate StopsAt(victims: seq<string>, n: nat, before: set<string>, after: set<string>, stuck: set<string>)
    requires n < |victims|
  {
    && victims[n] in before && victims[n] in stuck
    && (forall x :: x in victims[..n] && x in before ==> x !in stuck)
    && after == before - (set x | x in victims[..n])
  }

  /** Of the files that were there, exactly the evicted actions and blobs are gone. */
  ghost predicate Evicted(plan: Plan, blobs: seq<BlobFile>, actions: seq<ActionFile>,
                          before: set<string>, after: set<string>)
    requires |plan.blobGone| == |blobs| && |plan.actionGone| == |actions|
  {
    && (forall i :: 0 <= i < |blobs| ==> (blobs[i].path in after <==> blobs[i].path in before && !plan.blobGone[i]))
    && (forall a :: 0 <= a < |actions| ==>
          (actions[a].path in after <==> actions[a].path in before && !plan.actionGone[a]))
    && after <= before
    && (forall x :: x in before && x !in after ==>
          || (exists i :: 0 <= i < |blobs| && blobs[i].path == x)
          || (exists a :: 0 <= a < |actions| && actions[a].path == x))
  }

  function GoneCount(gone: seq<bool>): (n: nat) {
    if gone == [] then 0 else GoneCount(gone[..|gone| - 1]) + if gone[|gone| - 1] then 1 else 0
  }

  lemma {:induction false} GonePathsCount(paths: seq<string>, gone: seq<bool>)
    requires |paths| == |gone|
    ensures |GonePaths(paths, gone)| == GoneCount(gone)
  {
    if paths == [] {
    } else {
      GonePathsCount(paths[..|paths| - 1], gone[..|gone| - 1]);
    }
  }

  /** There are as many victims as evicted files. */
  lemma VictimCount(plan: Plan)
    requires |plan.actionGone| == |plan.snapshot.actions| && |plan.blobGone| == |plan.snapshot.blobs|
    ensures |Victims(plan)| == GoneCount(plan.actionGone) + GoneCount(plan.blobGone)
  {
    GonePathsCount(ActionPaths(plan.snapshot.actions), plan.actionGone);
    GonePathsCount(BlobPaths(plan.snapshot.blobs), plan.blobGone);
  }

  /** A path of distinct ones is gone exactly when its own position is. */
  lemma GonePathIff(paths: seq<string>, gone: seq<bool>, i: nat)
    requires |paths| == |gone| && i < |paths| && Distinct(paths)
    ensures paths[i] in GonePaths(paths, gone) <==> gone[i]
  {
    hide GonePaths;
    if paths[i] in GonePaths(paths, gone) {
      var j :| 0 <= j < |paths| && gone[j] && paths[j] == paths[i];
      assert j == i;
    }
  }

  lemma PathsDistinct(blobs: seq<BlobFile>, actions: seq<ActionFile>)
    requires DistinctFiles(blobs, actions)
    ensures Distinct(BlobPaths(blobs)) && Distinct(ActionPaths(actions))
    ensures forall i, a :: 0 <= i < |blobs| && 0 <= a < |actions| ==> BlobPaths(blobs)[i] != ActionPaths(actions)[a]
  {
  }

  /** Removing all victims evicts exactly what the plan evicts. */
  lemma AllEvicted(plan: Plan, blobs: seq<BlobFile>, actions: seq<ActionFile>, max: nat,
                   before: set<string>, after: set<string>)
    requires plan.Correct(blobs, actions, max) && DistinctFiles(blobs, actions)
    requires |plan.blobGone| == |blobs| && |plan.actionGone| == |actions|
    requires after == before - (set x | x in Victims(plan))
    ensures Evicted(plan, blobs, actions, before, after)
  {
    var bs, as_ := BlobPaths(blobs), ActionPaths(actions);
    var first, second := GonePaths(as_, plan.actionGone), GonePaths(bs, plan.blobGone);
    assert Victims(plan) == first + second;
    PathsDistinct(blobs, actions);
    hide plan.Correct, GonePaths, DistinctFiles;
    forall i | 0 <= i < |blobs|
      ensures blobs[i].path in after <==> blobs[i].path in before && !plan.blobGone[i]
    {
      GonePathIff(bs, plan.blobGone, i);
      assert bs[i] == blobs[i].path && bs[i] !in first;
    }
    forall a | 0 <= a < |actions|
      ensures actions[a].path in after <==> actions[a].path in before && !plan.actionGone[a]
    {
      GonePathIff(as_, plan.actionGone, a);
      assert as_[a] == actions[a].path && as_[a] !in second;
    }
    forall x | x in before && x !in after
      ensures || (exists i :: 0 <= i < |blobs| && blobs[i].path == x)
              || (exists a :: 0 <= a < |actions| && actions[a].path == x)
    {
      if x in first {
        var a :| 0 <= a < |as_| && plan.actionGone[a] && as_[a] == x;
        assert actions[a].path == x;
      } else {
        var i :| 0 <= i < |bs| && plan.blobGone[i] && bs[i] == x;
        assert blobs[i].path == x;
      }
    }
  }

  datatype Report = Report(bytesBefore: nat, bytesAfter: nat, removed: nat, dryRun: bool)
}
