/** Byte accounting of `download_and_extract` against its one staging reservation. */
module Download {
  import opened Common
  import Extraction
  import Trees

  datatype Limits = Limits(maxArchiveBytes: nat, maxExpansionRatio: nat)

  /** What the response stream yields next. */
  datatype Event = Chunk(len: nat) | Broken

  /** The most bytes extraction may write. */
  function ExpansionBound(declared: Option<nat>, limits: Limits): (bytes: nat)
    ensures bytes <= limits.maxArchiveBytes
  {
    match declared
    case None => limits.maxArchiveBytes
    case Some(d) => Min(SaturatingMul(d, limits.maxExpansionRatio), limits.maxArchiveBytes)
  }

  /** The most bytes the archive itself may take. */
  function Allowance(declared: Option<nat>, limits: Limits): (bytes: nat) {
    match declared
    case None => limits.maxArchiveBytes
    case Some(d) => d
  }

  /** What is reserved before anything is written: `download_staging_bytes`. */
  function StagingBytes(declared: Option<nat>, limits: Limits): (bytes: nat) {
    SaturatingAdd(Allowance(declared, limits), ExpansionBound(declared, limits))
  }

  datatype Received = Received(size: nat, written: nat, ok: bool)

  /** The body loop after `events`: the counter `size` and the bytes really written. */
  function Receive(declared: Option<nat>, events: seq<Event>, limits: Limits): (r: Received) {
    if events == [] then Received(0, 0, Allowance(declared, limits) <= limits.maxArchiveBytes)
    else
      var n := |events| - 1;
      var before := Receive(declared, events[..n], limits);
      if !before.ok then before
      else if events[n].Broken? then before.(ok := false)
      else
        var size := SaturatingAdd(before.size, events[n].len);
        if size > limits.maxArchiveBytes || (declared.Some? && size > declared.value)
        then before.(ok := false)
        else Received(size, before.written + events[n].len, true)
  }

  /** Archive bytes plus extracted file bytes, both counted from the start, after the whole action.
      Both only grow, so this bounds every moment before the end as well. */
  ghost function Written(declared: Option<nat>, events: seq<Event>, checksumOk: bool,
                         entries: seq<Extraction.Entry>, limits: Limits): (bytes: nat)
  {
    var received := Receive(declared, events, limits);
    received.written +
    if received.ok && checksumOk
    then Extraction.ExtractAll(entries, ExpansionBound(declared, limits)).written
    else 0
  }

  /** The counter is exact until it reaches the largest u64, and within the allowance. */
  lemma {:induction false} ReceiveBound(declared: Option<nat>, events: seq<Event>, limits: Limits)
    requires Allowance(declared, limits) < U64_MAX
    ensures var r := Receive(declared, events, limits);
            r.size == r.written <= Allowance(declared, limits)
  {
    if events == [] {
    } else {
      ReceiveBound(declared, events[..|events| - 1], limits);
    }
  }

  lemma {:induction false} ReceiveStops(declared: Option<nat>, events: seq<Event>, limits: Limits, n: nat)
    requires n <= |events| && !Receive(declared, events[..n], limits).ok
    ensures Receive(declared, events, limits) == Receive(declared, events[..n], limits)
  {
    if n < |events| {
      assert events[..|events| - 1][..n] == events[..n];
      ReceiveStops(declared, events[..|events| - 1], limits, n);
    } else {
      assert events[..n] == events;
    }
  }

  /** Every run stays within the reservation. */
  ghost predicate AlwaysCovered(declared: Option<nat>, limits: Limits) {
    forall events, checksumOk, entries ::
      Written(declared, events, checksumOk, entries, limits) <= StagingBytes(declared, limits)
  }

  /** The reservation's own sum does not saturate, and neither does the byte counter. */
  predicate Representable(declared: Option<nat>, limits: Limits) {
    && Allowance(declared, limits) < U64_MAX
    && Allowance(declared, limits) + ExpansionBound(declared, limits) <= U64_MAX
  }

  lemma WrittenWithinStaging(declared: Option<nat>, events: seq<Event>, checksumOk: bool,
                             entries: seq<Extraction.Entry>, limits: Limits)
    requires Representable(declared, limits)
    ensures Written(declared, events, checksumOk, entries, limits) <= StagingBytes(declared, limits)
  {
    ReceiveBound(declared, events, limits);
    Extraction.ExtractAllBounded(entries, ExpansionBound(declared, limits));
  }

  /** An archive whose one file fills the whole expansion. */
  ghost function Filling(bytes: nat): (e: Extraction.Entry) {
    Extraction.Entry(false, [[102]], Extraction.Regular(bytes, Extraction.Stream(seq(bytes, _ => 0), true), 0))
  }

  lemma FillingWritesAll(bytes: nat)
    ensures Extraction.ExtractAll([Filling(bytes)], bytes).written == bytes
  {
    var e := Filling(bytes);
    var empty := Extraction.FRESH;
    assert [e][..0] == [];
    assert Extraction.ExtractAll([], bytes) == Extraction.Outcome(empty, bytes, 0, true);
    assert [[102]] !in empty;
    assert !Extraction.Traverses(empty, [[102]]);
    assert Trees.Parent([[102]]) == [];
    assert e.body.stream.bytes[..bytes] == e.body.stream.bytes;
    assert Extraction.ExtractOne(empty, e, bytes).written == bytes;
  }

  /** A download that passes the first size check stays within its reservation on every run exactly
      when the reservation is representable. */
  lemma CoveredIff(declared: Option<nat>, limits: Limits)
    requires limits.maxArchiveBytes <= U64_MAX && Allowance(declared, limits) <= limits.maxArchiveBytes
    ensures AlwaysCovered(declared, limits) <==> Representable(declared, limits)
  {
    var a, x := Allowance(declared, limits), ExpansionBound(declared, limits);
    if Representable(declared, limits) {
      forall events, checksumOk, entries
        ensures Written(declared, events, checksumOk, entries, limits) <= StagingBytes(declared, limits)
      {
        WrittenWithinStaging(declared, events, checksumOk, entries, limits);
      }
    } else if a == U64_MAX {
      var events := [Chunk(a), Chunk(1)];
      assert events[..1][..0] == [] && events[..1][0] == Chunk(a);
      assert Receive(declared, [], limits) == Received(0, 0, true);
      assert Receive(declared, events[..1], limits) == Received(a, a, true);
      assert Receive(declared, events, limits) == Received(a, a + 1, true);
      assert Written(declared, events, false, [], limits) > StagingBytes(declared, limits);
    } else {
      var events := [Chunk(a)];
      assert events[..0] == [];
      assert Receive(declared, [], limits) == Received(0, 0, true);
      assert Receive(declared, events, limits) == Received(a, a, true);
      FillingWritesAll(x);
      assert Written(declared, events, true, [Filling(x)], limits) > StagingBytes(declared, limits);
    }
  }

  /** Twice the archive limit fitting in a u64 is enough for every response. */
  lemma CoveredByHalf(declared: Option<nat>, limits: Limits)
    requires 2 * limits.maxArchiveBytes <= U64_MAX
    ensures AlwaysCovered(declared, limits)
  {
    forall events, checksumOk, entries
      ensures Written(declared, events, checksumOk, entries, limits) <= StagingBytes(declared, limits)
    {
      if Allowance(declared, limits) <= limits.maxArchiveBytes {
        WrittenWithinStaging(declared, events, checksumOk, entries, limits);
      } else {
        assert events[..0] == [];
        assert !Receive(declared, [], limits).ok;
        ReceiveStops(declared, events, limits, 0);
      }
    }
  }

  /** The body was received and verified and every entry extracted. */
  ghost predicate Complete(declared: Option<nat>, events: seq<Event>, checksumOk: bool,
                           entries: seq<Extraction.Entry>, limits: Limits)
  {
    && Receive(declared, events, limits).ok && checksumOk
    && Extraction.ExtractAll(entries, ExpansionBound(declared, limits)).ok
  }

  /** The bytes the stream yields when nothing breaks it. */
  function Total(events: seq<Event>): (bytes: nat) {
    if events == [] then 0
    else
      var last := events[|events| - 1];
      Total(events[..|events| - 1]) + if last.Chunk? then last.len else 0
  }

  predicate WithinLimits(declared: Option<nat>, size: nat, limits: Limits) {
    match declared
    case None => size <= limits.maxArchiveBytes
    case Some(d) => size <= d <= limits.maxArchiveBytes
  }

  /** The body is accepted exactly when nothing breaks it and both the declared size, when there is one, and the
      saturating sum of its chunks are within the limit, the sum within the declared size; all of it is written. */
  lemma {:induction false} ReceiveIff(declared: Option<nat>, events: seq<Event>, limits: Limits)
    ensures var r := Receive(declared, events, limits);
            && (r.ok <==> Broken !in events && WithinLimits(declared, Min(Total(events), U64_MAX), limits))
            && (r.ok ==> r.written == Total(events) && r.size == Min(Total(events), U64_MAX))
  {
    if events == [] {
    } else {
      var n := |events| - 1;
      ReceiveIff(declared, events[..n], limits);
      assert events == events[..n] + [events[n]];
    }
  }

  /** What a caller can check of a response and its archive before the action completes. */
  lemma CompleteIff(declared: Option<nat>, events: seq<Event>, checksumOk: bool,
                    entries: seq<Extraction.Entry>, limits: Limits)
    ensures Complete(declared, events, checksumOk, entries, limits) <==>
            && Broken !in events && WithinLimits(declared, Min(Total(events), U64_MAX), limits) && checksumOk
            && Extraction.AllFit(entries, ExpansionBound(declared, limits))
  {
    hide Receive, Extraction.ExtractAll, Extraction.AllFit, Total;
    ReceiveIff(declared, events, limits);
    Extraction.ExtractsIff(entries, ExpansionBound(declared, limits));
  }

  /** However an archive is built, extraction writes no more than the declared size times the ratio. */
  lemma ExtractedWithinRatio(declared: nat, entries: seq<Extraction.Entry>, limits: Limits)
    ensures Extraction.ExtractAll(entries, ExpansionBound(Some(declared), limits)).written
            <= declared * limits.maxExpansionRatio
  {
    hide Extraction.ExtractAll;
    Extraction.ExtractAllBounded(entries, ExpansionBound(Some(declared), limits));
  }

  /** An archive of one file extracts exactly when the file is within the ratio and the limit. */
  lemma FillingExtractsIff(declared: nat, bytes: nat, limits: Limits)
    requires limits.maxArchiveBytes <= U64_MAX
    ensures Extraction.ExtractAll([Filling(bytes)], ExpansionBound(Some(declared), limits)).ok <==>
            bytes <= declared * limits.maxExpansionRatio && bytes <= limits.maxArchiveBytes
    ensures Extraction.ExtractAll([Filling(bytes)], ExpansionBound(None, limits)).ok <==>
            bytes <= limits.maxArchiveBytes
  {
    hide Extraction.ExtractAll;
    var entries := [Filling(bytes)];
    assert entries[..0] == [];
    Extraction.ExtractsIff(entries, ExpansionBound(Some(declared), limits));
    Extraction.ExtractsIff(entries, ExpansionBound(None, limits));
    FillingFits(bytes, ExpansionBound(Some(declared), limits));
    FillingFits(bytes, ExpansionBound(None, limits));
  }

  lemma FillingFits(bytes: nat, expansion: nat)
    ensures Extraction.AllFit([Filling(bytes)], expansion) <==> bytes <= expansion
  {
    var entries := [Filling(bytes)];
    assert entries[..0] == [];
    assert Extraction.Fits([], entries[0], expansion) <==> bytes <= expansion;
  }

  /** The reservation is not larger than it has to be: some run writes all of it. */
  lemma ReservationTight(declared: Option<nat>, limits: Limits)
    requires Representable(declared, limits) && Allowance(declared, limits) <= limits.maxArchiveBytes
    ensures exists events, entries ::
              Written(declared, events, true, entries, limits) == StagingBytes(declared, limits)
  {
    hide Receive, Extraction.ExtractAll;
    var a, x := Allowance(declared, limits), ExpansionBound(declared, limits);
    var events := [Chunk(a)];
    assert events[..0] == [];
    ReceiveIff(declared, events, limits);
    FillingWritesAll(x);
    assert Written(declared, events, true, [Filling(x)], limits) == StagingBytes(declared, limits);
  }

  /** How removing the old destination and renaming the new one into place went; a removal that fails
      may leave part of the old tree. */
  datatype Publication = Replaced | RemovalFailed(left: Option<Extraction.Tree>) | RenameFailed

  /** What the action's destination path holds. */
  class Output {
    var tree: Option<Extraction.Tree>

    constructor (tree: Option<Extraction.Tree>)
      ensures this.tree == tree
    {
      this.tree := tree;
    }

    method Publish(staged: Extraction.Tree, how: Publication) returns (ok: bool)
      modifies this
      ensures ok <==> how.Replaced?
      ensures tree == match how
                      case Replaced => Some(staged)
                      case RemovalFailed(left) => left
                      case RenameFailed => None
    {
      if how.RemovalFailed? {
        tree := how.left;
        return false;
      }
      tree := None;
      if how.RenameFailed? {
        return false;
      }
      tree := Some(staged);
      ok := true;
    }
  }

  /** The size check of the response and the loop over its chunks. */
  method ReceiveBody(declared: Option<nat>, events: seq<Event>, limits: Limits) returns (archive: nat, ok: bool)
    ensures var r := Receive(declared, events, limits); archive == r.written && ok == r.ok
  {
    archive, ok := 0, false;
    assert events[..0] == [];
    if Allowance(declared, limits) > limits.maxArchiveBytes {
      ReceiveStops(declared, events, limits, 0);
      return;
    }
    var size: nat := 0;
    for i := 0 to |events|
      invariant Receive(declared, events[..i], limits) == Received(size, archive, true)
    {
      assert events[..i + 1][..i] == events[..i];
      if events[i].Broken? {
        ReceiveStops(declared, events, limits, i + 1);
        return;
      }
      var next := SaturatingAdd(size, events[i].len);
      if next > limits.maxArchiveBytes || (declared.Some? && next > declared.value) {
        ReceiveStops(declared, events, limits, i + 1);
        return;
      }
      size, archive := next, archive + events[i].len;
    }
    assert events[..|events|] == events;
    ok := true;
  }

  /** The action: the body is received, verified and extracted into `staging`, and only then is what the
      destination held replaced. */
  method DownloadAndExtract(declared: Option<nat>, events: seq<Event>, checksumOk: bool,
                            entries: seq<Extraction.Entry>, limits: Limits,
                            staging: Extraction.Destination, output: Output, how: Publication)
    returns (archive: nat, ok: bool)
    requires staging.tree == Extraction.FRESH && staging.written == 0
    modifies staging, output
    ensures archive + staging.written == Written(declared, events, checksumOk, entries, limits)
    ensures Representable(declared, limits) ==> archive + staging.written <= StagingBytes(declared, limits)
    ensures ok <==> Complete(declared, events, checksumOk, entries, limits) && how.Replaced?
    ensures ok ==> output.tree.Some? && Trees.Shows(output.tree.value, Extraction.AllPlaced(entries))
    ensures !Complete(declared, events, checksumOk, entries, limits) ==> output.tree == old(output.tree)
  {
    hide Receive, Extraction.ExtractAll;
    if Representable(declared, limits) {
      WrittenWithinStaging(declared, events, checksumOk, entries, limits);
    }
    archive, ok := ReceiveBody(declared, events, limits);
    if !ok || !checksumOk {
      return archive, false;
    }
    ok := staging.ExtractArchive(entries, ExpansionBound(declared, limits));
    if ok {
      ok := output.Publish(staging.tree, how);
    }
  }
}
