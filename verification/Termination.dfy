/** Termination signals: the handler and the watcher over two shared atomics, step by step. */
module Termination {
  import opened Common

  datatype Signal = Interrupt | Terminate

  /** `STATE` */
  datatype Flag = Idle | Watching | Caught(signal: Signal)

  const REPEAT_WINDOW_NS: nat := 250_000_000

  /** Where one delivery is inside the handler, or how it ended. */
  datatype Phase =
    | Entered
    | Storing
    | Checking
    | Claimed
    | Ignored(duringStore: bool)
    | Defaulted

  /** A delivery of `signal` whose handler read the clock as `now`; `watch` is the watch whose claimed
      signal the handler won or compared itself with. */
  datatype Delivery = Delivery(signal: Signal, now: nat, phase: Phase, watch: nat)

  /** The life of one watcher: the delivery it caught, what `recv` and `restore` or `drop` gave. */
  datatype Watch = Watch(claimant: Option<nat>, received: Option<Signal>, returned: Option<Option<Signal>>)

  /** No watcher, one between the two stores of `install`, or a live one (the last of `watches`). */
  datatype Watcher = Absent | Resetting | Live

  datatype World = World(flag: Flag, firstNs: nat, watcher: Watcher,
                         deliveries: seq<Delivery>, watches: seq<Watch>)

  datatype Step =
    | Deliver(signal: Signal, now: nat)
    | Exchange(i: nat)
    | Record(i: nat)
    | Check(i: nat)
    | InstallReset
    | InstallWatch
    | Receive
    | Finish

  const START: World := World(Idle, 0, Absent, [], [])

  /** No handler is between its exchange and its end. */
  predicate Quiet(w: World) {
    forall i :: 0 <= i < |w.deliveries| ==> !w.deliveries[i].phase.Storing? && !w.deliveries[i].phase.Checking?
  }

  /** `is_repeat` */
  predicate IsRepeat(first: nat, now: nat) {
    first == 0 || SaturatingSub(now, first) < REPEAT_WINDOW_NS
  }

  function CaughtFrom(flag: Flag): (s: Option<Signal>) {
    if flag.Caught? then Some(flag.signal) else None
  }

  /** The claimant of watch `k` has yet to record its time. */
  predicate StillStoring(w: World, k: nat) {
    && k < |w.watches| && w.watches[k].claimant.Some?
    && w.watches[k].claimant.value < |w.deliveries|
    && w.deliveries[w.watches[k].claimant.value].phase.Storing?
  }

  /** What the handler records as the time of a claim. */
  function Time(d: Delivery): (t: nat) {
    Max(d.now, 1)
  }

  /** `d` came inside the repeat window of the signal its watch claimed. */
  predicate InWindow(w: World, d: Delivery) {
    && d.watch < |w.watches| && w.watches[d.watch].claimant.Some?
    && w.watches[d.watch].claimant.value < |w.deliveries|
    && SaturatingSub(d.now, Time(w.deliveries[w.watches[d.watch].claimant.value])) < REPEAT_WINDOW_NS
  }

  /** The latest reading of the clock. */
  function Latest(w: World): (now: nat) {
    if w.deliveries == [] then 0 else w.deliveries[|w.deliveries| - 1].now
  }

  /** Delivery `i` can still be compared with the claim of watch `k`. */
  predicate Compares(w: World, k: nat, i: nat) {
    && i < |w.deliveries|
    && (w.deliveries[i].phase.Entered? || (w.deliveries[i].phase.Checking? && w.deliveries[i].watch == k))
  }

  /** A delivery at `now` is outside the window of a claim at `claim`, and inside that of `stale`. */
  predicate Misled(now: nat, claim: nat, stale: nat) {
    claim + REPEAT_WINDOW_NS <= now < stale + REPEAT_WINDOW_NS
  }

  /** If delivery `c` claims watch `k` and the time `stale` is recorded over its own, some repeat can be
      misled: one that is still to come, or one that is on its way. */
  predicate Threat(w: World, k: nat, c: nat, stale: nat)
    requires c < |w.deliveries|
  {
    && Time(w.deliveries[c]) < stale
    && (|| Latest(w) < stale + REPEAT_WINDOW_NS
        || exists i :: 0 <= i < |w.deliveries| && Compares(w, k, i) && i != c
                       && w.deliveries[i].signal == w.deliveries[c].signal
                       && Misled(w.deliveries[i].now, Time(w.deliveries[c]), stale))
  }

  /** No handler has yet to compare a repeat from outside its window, and no claim that is yet to be recorded
      threatens a claim that an earlier delivery on its way could make. */
  predicate MayInstall(w: World) {
    && (forall i :: 0 <= i < |w.deliveries| && w.deliveries[i].phase.Checking? ==> InWindow(w, w.deliveries[i]))
    && (forall x, c :: 0 <= x < |w.deliveries| && 0 <= c < |w.deliveries|
                       && w.deliveries[x].phase.Storing? && w.deliveries[c].phase.Entered?
                       ==> !Threat(w, |w.watches|, c, Time(w.deliveries[x])))
  }

  /** The compare-exchange of the handler. */
  function ExchangeStep(w: World, i: nat): (r: World)
    requires i < |w.deliveries|
  {
    var d, last := w.deliveries[i], SaturatingSub(|w.watches|, 1);
    if w.flag.Watching? && w.watches != [] then
      w.(flag := Caught(d.signal),
         deliveries := w.deliveries[i := d.(phase := Storing, watch := last)],
         watches := w.watches[last := w.watches[last].(claimant := Some(i))])
    else if w.flag == Caught(d.signal) then
      w.(deliveries := w.deliveries[i := d.(phase := Checking, watch := last)])
    else
      w.(deliveries := w.deliveries[i := d.(phase := Defaulted)])
  }

  /** One atomic step; `None` when it is not enabled. The clock does not run backwards, watchers do not
      overlap, and with `guarded` none is installed while a handler is in the way. */
  function Next(w: World, s: Step, guarded: bool): (r: Option<World>) {
    match s
    case Deliver(signal, now) =>
      if Latest(w) <= now then Some(w.(deliveries := w.deliveries + [Delivery(signal, now, Entered, 0)])) else None
    case Exchange(i) =>
      if i < |w.deliveries| && w.deliveries[i].phase.Entered? then Some(ExchangeStep(w, i)) else None
    case Record(i) =>
      if i < |w.deliveries| && w.deliveries[i].phase.Storing? then
        Some(w.(firstNs := Time(w.deliveries[i]),
                deliveries := w.deliveries[i := w.deliveries[i].(phase := Claimed)]))
      else None
    case Check(i) =>
      if i < |w.deliveries| && w.deliveries[i].phase.Checking? then
        var d := w.deliveries[i];
        var phase := if IsRepeat(w.firstNs, d.now) then Ignored(StillStoring(w, d.watch)) else Defaulted;
        Some(w.(deliveries := w.deliveries[i := d.(phase := phase)]))
      else None
    case InstallReset =>
      if w.watcher.Absent? && (guarded ==> MayInstall(w)) then Some(w.(firstNs := 0, watcher := Resetting)) else None
    case InstallWatch =>
      if w.watcher.Resetting? then
        Some(w.(flag := Watching, watcher := Live, watches := w.watches + [Watch(None, None, None)]))
      else None
    case Receive =>
      if w.watcher.Live? && w.watches != [] && w.flag.Caught? then
        var last := |w.watches| - 1;
        Some(w.(watches := w.watches[last := w.watches[last].(received := Some(w.flag.signal))]))
      else None
    case Finish =>
      if w.watcher.Live? && w.watches != [] then
        var last := |w.watches| - 1;
        Some(w.(flag := Idle, watcher := Absent,
                watches := w.watches[last := w.watches[last].(returned := Some(CaughtFrom(w.flag)))]))
      else None
  }

  /** Every step of the run, in order; `None` when one is not enabled. */
  function RunFrom(start: World, steps: seq<Step>, guarded: bool): (r: Option<World>) {
    if steps == [] then Some(start)
    else
      match RunFrom(start, steps[..|steps| - 1], guarded)
      case None => None
      case Some(w) => Next(w, steps[|steps| - 1], guarded)
  }

  /** A run from a process with no watcher. */
  function Run(steps: seq<Step>, guarded: bool): (r: Option<World>) {
    RunFrom(START, steps, guarded)
  }

  // ----- Invariant ---------------------------------------------------------------

  /** What the watch knows of its claimed signal. */
  predicate ClaimOk(w: World, k: nat)
    requires k < |w.watches|
  {
    var c := w.watches[k].claimant;
    c.Some? ==>
      && c.value < |w.deliveries| && w.deliveries[c.value].watch == k
      && (w.deliveries[c.value].phase.Storing? || w.deliveries[c.value].phase.Claimed?)
  }

  function ClaimedSignal(w: World, k: nat): (s: Option<Signal>)
    requires k < |w.watches| && ClaimOk(w, k)
  {
    var c := w.watches[k].claimant;
    if c.Some? then Some(w.deliveries[c.value].signal) else None
  }

  /** A watch was handed exactly the signal it claimed. */
  predicate HandedOver(w: World, k: nat)
    requires k < |w.watches| && ClaimOk(w, k)
  {
    var v := w.watches[k];
    && (v.received.Some? ==> v.received == ClaimedSignal(w, k))
    && (v.returned.Some? ==> v.returned.value == ClaimedSignal(w, k))
  }

  /** The watch that deliveries claim or are compared with: the last one, or the one being installed. */
  function Current(w: World): (k: nat) {
    if w.watches == [] || w.watcher.Resetting? then |w.watches| else |w.watches| - 1
  }

  predicate DeliveryOk(w: World, i: nat)
    requires i < |w.deliveries|
  {
    var d := w.deliveries[i];
    match d.phase
    case Entered => true
    case Defaulted => true
    case Storing => d.watch < |w.watches| && w.watches[d.watch].claimant == Some(i)
    case Claimed => d.watch < |w.watches| && w.watches[d.watch].claimant == Some(i)
    case Checking => d.watch < |w.watches| && SameAsClaim(w, d) && (d.watch == Current(w) || InWindow(w, d))
    case Ignored(duringStore) => d.watch < |w.watches| && SameAsClaim(w, d) && (duringStore || InWindow(w, d))
  }

  /** `d` is of the same kind as the signal its watch claimed. */
  predicate SameAsClaim(w: World, d: Delivery)
    requires d.watch < |w.watches|
  {
    var c := w.watches[d.watch].claimant;
    c.Some? && c.value < |w.deliveries| && w.deliveries[c.value].signal == d.signal
  }

  predicate FlagOk(w: World) {
    match w.watcher
    case Live =>
      && w.watches != [] && ClaimOk(w, |w.watches| - 1)
      && w.watches[|w.watches| - 1].returned.None?
      && !w.flag.Idle? && CaughtFrom(w.flag) == ClaimedSignal(w, |w.watches| - 1)
    case Absent => w.flag.Idle?
    case Resetting => w.flag.Idle?
  }

  /** Watches and deliveries agree on who claimed what. */
  ghost predicate Agree(w: World) {
    && FlagOk(w)
    && (forall k :: 0 <= k < |w.watches| ==> ClaimOk(w, k) && HandedOver(w, k))
    && (forall i :: 0 <= i < |w.deliveries| ==> DeliveryOk(w, i))
    && (forall k :: 0 <= k < |w.watches| - (if w.watcher.Live? then 1 else 0) ==> w.watches[k].returned.Some?)
  }

  function CurrentClaim(w: World): (c: Option<nat>) {
    if Current(w) < |w.watches| then w.watches[Current(w)].claimant else None
  }

  /** Delivery `c` made the claim of the current watch, or still can. */
  predicate MayClaim(w: World, c: nat) {
    && c < |w.deliveries|
    && if CurrentClaim(w).Some? then CurrentClaim(w) == Some(c) else w.deliveries[c].phase.Entered?
  }

  /** A time left by the claim of an earlier watch that misleads no comparison of the current one. */
  predicate Harmless(w: World, stale: nat) {
    && stale <= Max(Latest(w), 1)
    && forall c :: 0 <= c < |w.deliveries| && MayClaim(w, c) ==> !Threat(w, Current(w), c, stale)
  }

  /** The time of the current claim once it is recorded, and zero before. */
  function Expected(w: World): (t: nat) {
    var c := CurrentClaim(w);
    if c.Some? && c.value < |w.deliveries| && !w.deliveries[c.value].phase.Storing?
    then Time(w.deliveries[c.value]) else 0
  }

  predicate Ordered(w: World) {
    forall i, j :: 0 <= i < j < |w.deliveries| ==> w.deliveries[i].now <= w.deliveries[j].now
  }

  /** What is recorded is the time of the current claim, or harmless; so is what is yet to be recorded. */
  ghost predicate Timed(w: World) {
    && Ordered(w)
    && (w.firstNs == Expected(w) || (w.firstNs > 0 && Harmless(w, w.firstNs)))
    && (forall i :: 0 <= i < |w.deliveries| && w.deliveries[i].phase.Storing? && w.deliveries[i].watch != Current(w)
                    ==> Harmless(w, Time(w.deliveries[i])))
  }

  ghost predicate Inv(w: World) {
    Agree(w) && Timed(w)
  }

  lemma DeliverAgrees(w: World, signal: Signal, now: nat)
    requires Agree(w) && Latest(w) <= now
    ensures Agree(Next(w, Deliver(signal, now), true).value)
  {
    hide Latest;
    var v := Next(w, Deliver(signal, now), true).value;
    forall j | 0 <= j < |v.deliveries| ensures DeliveryOk(v, j) {
      if j < |w.deliveries| {
        assert DeliveryOk(w, j);
      }
    }
    forall k | 0 <= k < |v.watches| ensures ClaimOk(v, k) && HandedOver(v, k) {
      assert ClaimOk(w, k) && HandedOver(w, k);
    }
  }

  lemma ClaimAgrees(w: World, i: nat)
    requires Agree(w) && i < |w.deliveries| && w.deliveries[i].phase.Entered? && w.flag.Watching?
    ensures Agree(ExchangeStep(w, i))
  {
    var v, last := ExchangeStep(w, i), |w.watches| - 1;
    assert ClaimOk(w, last) && w.watches[last].claimant.None?;
    forall k | 0 <= k < |v.watches| ensures ClaimOk(v, k) && HandedOver(v, k) {
      assert ClaimOk(w, k) && HandedOver(w, k);
    }
    forall j | 0 <= j < |v.deliveries| ensures DeliveryOk(v, j) {
      assert DeliveryOk(w, j);
    }
  }

  lemma CompareAgrees(w: World, i: nat)
    requires Agree(w) && i < |w.deliveries| && w.deliveries[i].phase.Entered?
    requires w.flag == Caught(w.deliveries[i].signal)
    ensures Agree(ExchangeStep(w, i))
  {
    var v := ExchangeStep(w, i);
    forall k | 0 <= k < |v.watches| ensures ClaimOk(v, k) && HandedOver(v, k) {
      assert ClaimOk(w, k) && HandedOver(w, k);
    }
    forall j | 0 <= j < |v.deliveries| ensures DeliveryOk(v, j) {
      assert DeliveryOk(w, j);
    }
  }

  lemma DefaultAgrees(w: World, i: nat)
    requires Agree(w) && i < |w.deliveries| && w.deliveries[i].phase.Entered?
    requires !w.flag.Watching? && w.flag != Caught(w.deliveries[i].signal)
    ensures Agree(ExchangeStep(w, i))
  {
    var v := ExchangeStep(w, i);
    forall k | 0 <= k < |v.watches| ensures ClaimOk(v, k) && HandedOver(v, k) {
      assert ClaimOk(w, k) && HandedOver(w, k);
    }
    forall j | 0 <= j < |v.deliveries| ensures DeliveryOk(v, j) {
      assert DeliveryOk(w, j);
    }
  }

  lemma RecordAgrees(w: World, i: nat)
    requires Agree(w) && i < |w.deliveries| && w.deliveries[i].phase.Storing?
    ensures Agree(Next(w, Record(i), true).value)
  {
    var v := Next(w, Record(i), true).value;
    assert DeliveryOk(w, i);
    forall k | 0 <= k < |v.watches| ensures ClaimOk(v, k) && HandedOver(v, k) {
      assert ClaimOk(w, k) && HandedOver(w, k);
    }
    forall j | 0 <= j < |v.deliveries| ensures DeliveryOk(v, j) {
      assert DeliveryOk(w, j);
    }
  }

  lemma CheckAgrees(w: World, i: nat)
    requires Inv(w) && i < |w.deliveries| && w.deliveries[i].phase.Checking?
    ensures Agree(Next(w, Check(i), true).value)
  {
    hide Timed, IsRepeat;
    var v := Next(w, Check(i), true).value;
    assert DeliveryOk(w, i);
    if IsRepeat(w.firstNs, w.deliveries[i].now) {
      IgnoredIsJust(w, i);
    }
    forall k | 0 <= k < |v.watches| ensures ClaimOk(v, k) && HandedOver(v, k) {
      assert ClaimOk(w, k) && HandedOver(w, k);
    }
    forall j | 0 <= j < |v.deliveries| ensures DeliveryOk(v, j) {
      assert DeliveryOk(w, j);
    }
  }

  /** What looks like a repeat is one, or its claim is still being recorded. */
  lemma IgnoredIsJust(w: World, i: nat)
    requires Inv(w) && i < |w.deliveries| && w.deliveries[i].phase.Checking? && IsRepeat(w.firstNs, w.deliveries[i].now)
    ensures StillStoring(w, w.deliveries[i].watch) || InWindow(w, w.deliveries[i])
  {
    hide FlagOk, HandedOver;
    var d := w.deliveries[i];
    assert DeliveryOk(w, i);
    if d.watch == Current(w) {
      assert ClaimOk(w, d.watch);
      var c := w.watches[d.watch].claimant.value;
      if w.firstNs > 0 && w.firstNs != Expected(w) {
        assert MayClaim(w, c) && !Threat(w, Current(w), c, w.firstNs);
        assert Compares(w, Current(w), i) && i != c;
      }
    }
  }

  /** Steps of the watcher leave the deliveries alone. */
  lemma InstallAgrees(w: World, s: Step)
    requires Agree(w) && (s.InstallReset? || s.InstallWatch?) && Next(w, s, true).Some?
    ensures Agree(Next(w, s, true).value)
  {
    hide Threat;
    var v := Next(w, s, true).value;
    forall k | 0 <= k < |v.watches| ensures ClaimOk(v, k) && HandedOver(v, k) {
      if k < |w.watches| {
        assert ClaimOk(w, k) && HandedOver(w, k);
      }
    }
    forall j | 0 <= j < |v.deliveries| ensures DeliveryOk(v, j) {
      assert DeliveryOk(w, j);
    }
  }

  lemma WatcherAgrees(w: World, s: Step)
    requires Agree(w) && (s.Receive? || s.Finish?) && Next(w, s, true).Some?
    ensures Agree(Next(w, s, true).value)
  {
    hide Threat, MayInstall;
    var v := Next(w, s, true).value;
    forall k | 0 <= k < |v.watches| ensures ClaimOk(v, k) && HandedOver(v, k) {
      assert ClaimOk(w, k) && HandedOver(w, k);
    }
    forall j | 0 <= j < |v.deliveries| ensures DeliveryOk(v, j) {
      assert DeliveryOk(w, j);
    }
  }

  lemma NextAgrees(w: World, s: Step)
    requires Inv(w) && Next(w, s, true).Some?
    ensures Agree(Next(w, s, true).value)
  {
    hide Agree, Timed, ExchangeStep;
    match s
    case Deliver(signal, now) => DeliverAgrees(w, signal, now);
    case Exchange(i) =>
      if w.flag.Watching? {
        ClaimAgrees(w, i);
      } else if w.flag == Caught(w.deliveries[i].signal) {
        CompareAgrees(w, i);
      } else {
        DefaultAgrees(w, i);
      }
    case Record(i) => RecordAgrees(w, i);
    case Check(i) => CheckAgrees(w, i);
    case InstallReset => InstallAgrees(w, s);
    case InstallWatch => InstallAgrees(w, s);
    case Receive => WatcherAgrees(w, s);
    case Finish => WatcherAgrees(w, s);
  }

  // ----- Recorded times ----------------------------------------------------------

  /** From `w` to `v` the current watch stays, deliveries keep what they are and read, later ones come with
      later readings, and no more of the earlier ones can be compared or claim. */
  ghost predicate Follows(w: World, v: World) {
    && Current(v) == Current(w) && |w.deliveries| <= |v.deliveries| && Ordered(w) && Ordered(v)
    && (forall i :: 0 <= i < |w.deliveries| ==>
          v.deliveries[i].now == w.deliveries[i].now && v.deliveries[i].signal == w.deliveries[i].signal)
    && (forall i :: |w.deliveries| <= i < |v.deliveries| ==> v.deliveries[i].now >= Latest(w))
    && (forall i :: 0 <= i < |w.deliveries| && Compares(v, Current(v), i) ==> Compares(w, Current(w), i))
    && (forall i :: 0 <= i < |w.deliveries| && MayClaim(v, i) ==> MayClaim(w, i))
  }

  lemma LatestGrows(w: World, v: World)
    requires Follows(w, v)
    ensures Latest(w) <= Latest(v)
  {
    hide Compares, MayClaim;
  }

  lemma HarmlessStays(w: World, v: World, stale: nat)
    requires Follows(w, v) && Harmless(w, stale)
    ensures Harmless(v, stale)
  {
    LatestGrows(w, v);
    hide Latest, MayClaim;
    forall c | 0 <= c < |v.deliveries| && MayClaim(v, c) ensures !Threat(v, Current(v), c, stale) {
      if c < |w.deliveries| {
        assert MayClaim(w, c) && !Threat(w, Current(w), c, stale);
        if Time(v.deliveries[c]) < stale {
          forall i | 0 <= i < |v.deliveries| && Compares(v, Current(v), i) && i != c
                     && v.deliveries[i].signal == v.deliveries[c].signal
            ensures !Misled(v.deliveries[i].now, Time(v.deliveries[c]), stale)
          {
            assert i < |w.deliveries| ==> Compares(w, Current(w), i);
          }
        }
      }
    }
  }

  /** What was still to be recorded before stays harmless. */
  lemma TimedFollows(w: World, v: World)
    requires Timed(w) && Follows(w, v)
    requires v.firstNs == Expected(v) || (v.firstNs > 0 && Harmless(w, v.firstNs))
    requires forall i :: 0 <= i < |v.deliveries| && v.deliveries[i].phase.Storing?
                         && v.deliveries[i].watch != Current(v)
                         ==> i < |w.deliveries| && w.deliveries[i].phase.Storing?
                             && w.deliveries[i].watch == v.deliveries[i].watch
    ensures Timed(v)
  {
    hide Harmless, Compares, MayClaim, Expected, Latest;
    if v.firstNs != Expected(v) {
      HarmlessStays(w, v, v.firstNs);
    }
    forall i | 0 <= i < |v.deliveries| && v.deliveries[i].phase.Storing? && v.deliveries[i].watch != Current(v)
      ensures Harmless(v, Time(v.deliveries[i]))
    {
      assert Harmless(w, Time(w.deliveries[i]));
      HarmlessStays(w, v, Time(w.deliveries[i]));
    }
  }

  lemma DeliverTimed(w: World, signal: Signal, now: nat)
    requires Inv(w) && Latest(w) <= now
    ensures Timed(Next(w, Deliver(signal, now), true).value)
  {
    hide HandedOver, Harmless;
    var v := Next(w, Deliver(signal, now), true).value;
    if CurrentClaim(w).Some? {
      assert ClaimOk(w, Current(w));
    }
    assert Ordered(v) by {
      EarlierThanLatest(w);
    }
    assert Expected(v) == Expected(w);
    TimedFollows(w, v);
  }

  lemma EarlierThanLatest(w: World)
    requires Ordered(w)
    ensures forall i :: 0 <= i < |w.deliveries| ==> w.deliveries[i].now <= Latest(w)
  {
  }

  lemma ExchangeTimed(w: World, i: nat)
    requires Inv(w) && i < |w.deliveries| && w.deliveries[i].phase.Entered?
    ensures Timed(ExchangeStep(w, i))
  {
    hide Timed, Harmless, Latest, Expected, Compares, MayClaim;
    ExchangeFollows(w, i);
    ExchangeExpects(w, i);
    TimedBy(w, ExchangeStep(w, i));
  }

  lemma ExchangeFollows(w: World, i: nat)
    requires Inv(w) && i < |w.deliveries| && w.deliveries[i].phase.Entered?
    ensures Follows(w, ExchangeStep(w, i))
  {
    hide HandedOver, DeliveryOk, Harmless, Latest, Expected;
    if CurrentClaim(w).Some? {
      assert ClaimOk(w, Current(w));
    }
  }

  lemma ExchangeExpects(w: World, i: nat)
    requires Inv(w) && i < |w.deliveries| && w.deliveries[i].phase.Entered?
    ensures ExchangeStep(w, i).firstNs == w.firstNs && Expected(ExchangeStep(w, i)) == Expected(w)
  {
    hide HandedOver, DeliveryOk, Timed;
    if CurrentClaim(w).Some? {
      assert ClaimOk(w, Current(w));
    }
  }

  /** A step that leaves the recorded time and the expected one. */
  lemma TimedBy(w: World, v: World)
    requires Timed(w) && Follows(w, v) && v.firstNs == w.firstNs && Expected(v) == Expected(w)
    requires forall i :: 0 <= i < |v.deliveries| && v.deliveries[i].phase.Storing?
                         && v.deliveries[i].watch != Current(v)
                         ==> i < |w.deliveries| && w.deliveries[i].phase.Storing?
                             && w.deliveries[i].watch == v.deliveries[i].watch
    ensures Timed(v)
  {
    hide Harmless, Follows, Expected;
    TimedFollows(w, v);
  }

  lemma SameLatest(w: World, v: World)
    requires |w.deliveries| == |v.deliveries|
    requires forall i :: 0 <= i < |w.deliveries| ==> v.deliveries[i].now == w.deliveries[i].now
    ensures Latest(v) == Latest(w)
  {
  }

  lemma RecordTimed(w: World, i: nat)
    requires Inv(w) && i < |w.deliveries| && w.deliveries[i].phase.Storing?
    ensures Timed(Next(w, Record(i), true).value)
  {
    hide HandedOver, Harmless, Latest;
    var v := Next(w, Record(i), true).value;
    assert DeliveryOk(w, i);
    if CurrentClaim(w).Some? {
      assert ClaimOk(w, Current(w));
    }
    TimedFollows(w, v);
  }

  lemma CheckTimed(w: World, i: nat)
    requires Inv(w) && i < |w.deliveries| && w.deliveries[i].phase.Checking?
    ensures Timed(Next(w, Check(i), true).value)
  {
    hide HandedOver, Harmless, Latest, IsRepeat;
    var v := Next(w, Check(i), true).value;
    if CurrentClaim(w).Some? {
      assert ClaimOk(w, Current(w));
    }
    assert Expected(v) == Expected(w);
    TimedFollows(w, v);
  }

  /** The guard makes every claim that is yet to be recorded harmless to the new watch. */
  lemma ResetTimed(w: World)
    requires Inv(w) && w.watcher.Absent? && MayInstall(w)
    ensures Timed(Next(w, InstallReset, true).value)
  {
    hide HandedOver;
    var v := Next(w, InstallReset, true).value;
    EarlierThanLatest(w);
    forall x | 0 <= x < |v.deliveries| && v.deliveries[x].phase.Storing? ensures Harmless(v, Time(v.deliveries[x])) {
      forall c | 0 <= c < |v.deliveries| && MayClaim(v, c) ensures !Threat(v, Current(v), c, Time(v.deliveries[x])) {
        assert !Threat(w, |w.watches|, c, Time(w.deliveries[x]));
        SameThreat(w, v, |w.watches|, c, Time(w.deliveries[x]));
      }
    }
  }

  lemma SameThreat(w: World, v: World, k: nat, c: nat, stale: nat)
    requires c < |w.deliveries| && w.deliveries == v.deliveries
    ensures Threat(w, k, c, stale) <==> Threat(v, k, c, stale)
  {
    assert forall i: nat :: Compares(w, k, i) <==> Compares(v, k, i);
  }

  lemma WatchTimed(w: World, s: Step)
    requires Inv(w) && Next(w, s, true).Some? && (s.InstallWatch? || s.Receive? || s.Finish?)
    ensures Timed(Next(w, s, true).value)
  {
    hide HandedOver, Harmless, Latest;
    var v := Next(w, s, true).value;
    assert Expected(v) == Expected(w);
    TimedFollows(w, v);
  }

  lemma NextTimed(w: World, s: Step)
    requires Inv(w) && Next(w, s, true).Some?
    ensures Timed(Next(w, s, true).value)
  {
    hide Agree, Timed, ExchangeStep, MayInstall, Latest;
    match s
    case Deliver(signal, now) => DeliverTimed(w, signal, now);
    case Exchange(i) => ExchangeTimed(w, i);
    case Record(i) => RecordTimed(w, i);
    case Check(i) => CheckTimed(w, i);
    case InstallReset => ResetTimed(w);
    case _ => WatchTimed(w, s);
  }

  lemma NextInv(w: World, s: Step)
    requires Inv(w) && Next(w, s, true).Some?
    ensures Inv(Next(w, s, true).value)
  {
    hide Next, Agree, Timed;
    NextAgrees(w, s);
    NextTimed(w, s);
  }

  lemma {:induction false} RunFromInv(start: World, steps: seq<Step>)
    requires Inv(start) && RunFrom(start, steps, true).Some?
    ensures Inv(RunFrom(start, steps, true).value)
  {
    hide Next, Inv;
    if steps == [] {
    } else {
      RunFromInv(start, steps[..|steps| - 1]);
      NextInv(RunFrom(start, steps[..|steps| - 1], true).value, steps[|steps| - 1]);
    }
  }

  lemma RunInv(steps: seq<Step>)
    requires Run(steps, true).Some?
    ensures Inv(Run(steps, true).value)
  {
    hide Next, RunFrom;
    RunFromInv(START, steps);
  }

  // ----- What every run guarantees -----------------------------------------------

  predicate Unclaimed(w: World) {
    forall k :: 0 <= k < |w.watches| ==> w.watches[k].claimant.None?
  }

  /** While no signal has been claimed every install finds the handlers quiet. */
  lemma UnclaimedIsQuiet(steps: seq<Step>)
    requires Run(steps, true).Some? && Unclaimed(Run(steps, true).value)
    ensures Quiet(Run(steps, true).value)
  {
    RunInv(steps);
    var w := Run(steps, true).value;
    forall i | 0 <= i < |w.deliveries|
      ensures !w.deliveries[i].phase.Storing? && !w.deliveries[i].phase.Checking?
    {
      assert DeliveryOk(w, i);
    }
  }

  /** A run that installs no watcher after a claimed signal needs no guard: it is a guarded run. */
  lemma {:induction false} UnclaimedInstallsAreGuarded(steps: seq<Step>)
    requires Run(steps, false).Some?
    requires forall i :: 0 <= i < |steps| && steps[i].InstallReset? ==>
               Run(steps[..i], false).Some? && Unclaimed(Run(steps[..i], false).value)
    ensures Run(steps, true) == Run(steps, false)
  {
    hide Next, Quiet, Unclaimed;
    if steps == [] {
    } else {
      var n := |steps| - 1;
      var front := steps[..n];
      forall i | 0 <= i < n && front[i].InstallReset?
        ensures Run(front[..i], false).Some? && Unclaimed(Run(front[..i], false).value)
      {
        assert front[..i] == steps[..i] && steps[i].InstallReset?;
      }
      UnclaimedInstallsAreGuarded(front);
      if steps[n].InstallReset? {
        UnclaimedIsQuiet(front);
      }
      GuardPasses(Run(front, false).value, steps[n]);
    }
  }

  lemma GuardPasses(w: World, s: Step)
    requires s.InstallReset? ==> Quiet(w)
    ensures Next(w, s, true) == Next(w, s, false)
  {
    hide ExchangeStep, StillStoring;
  }

  predicate IsClaimed(d: Delivery, k: nat) {
    (d.phase.Storing? || d.phase.Claimed?) && d.watch == k
  }

  /** At most one signal is claimed per watch. */
  lemma AtMostOneClaim(steps: seq<Step>, i: nat, j: nat, k: nat)
    requires Run(steps, true).Some?
    ensures var w := Run(steps, true).value;
            i < |w.deliveries| && j < |w.deliveries| && IsClaimed(w.deliveries[i], k) && IsClaimed(w.deliveries[j], k)
            ==> i == j
  {
    RunInv(steps);
    var w := Run(steps, true).value;
    if i < |w.deliveries| && j < |w.deliveries| {
      assert DeliveryOk(w, i) && DeliveryOk(w, j);
    }
  }

  /** A watch that ended handed its owner exactly the signal claimed in it, and nothing when none was;
      what `recv` gave before is the same signal. */
  lemma ClaimHandedOver(steps: seq<Step>, k: nat)
    requires Run(steps, true).Some?
    ensures var w := Run(steps, true).value;
            k < |w.watches| && w.watches[k].returned.Some? ==>
              && (w.watches[k].returned.value.None? ==>
                    forall i :: 0 <= i < |w.deliveries| ==> !IsClaimed(w.deliveries[i], k))
              && (forall s :: w.watches[k].returned.value == Some(s) ==>
                    exists i :: 0 <= i < |w.deliveries| && IsClaimed(w.deliveries[i], k) && w.deliveries[i].signal == s)
              && (w.watches[k].received.Some? ==> w.watches[k].received == w.watches[k].returned.value)
  {
    RunInv(steps);
    var w := Run(steps, true).value;
    if k < |w.watches| && w.watches[k].returned.Some? {
      assert ClaimOk(w, k) && HandedOver(w, k);
      forall i | 0 <= i < |w.deliveries| && IsClaimed(w.deliveries[i], k) ensures w.watches[k].claimant == Some(i) {
        assert DeliveryOk(w, i);
      }
      if w.watches[k].claimant.Some? {
        assert IsClaimed(w.deliveries[w.watches[k].claimant.value], k);
      }
    }
  }

  /** A delivery is ignored only when it repeats the claimed signal and the claim is still being recorded
      or was made inside the repeat window. */
  lemma IgnoredOnlyRepeats(steps: seq<Step>, i: nat)
    requires Run(steps, true).Some?
    ensures var w := Run(steps, true).value;
            i < |w.deliveries| && w.deliveries[i].phase.Ignored? ==> JustlyIgnored(w, i)
  {
    RunInv(steps);
    var w := Run(steps, true).value;
    if i < |w.deliveries| && w.deliveries[i].phase.Ignored? {
      assert DeliveryOk(w, i);
    }
  }

  predicate JustlyIgnored(w: World, i: nat)
    requires i < |w.deliveries| && w.deliveries[i].phase.Ignored?
  {
    var d := w.deliveries[i];
    d.watch < |w.watches| && SameAsClaim(w, d) && (d.phase.duringStore || InWindow(w, d))
  }

  /** A signal is caught whenever a watcher is live and has caught none: it is never lost to the default. */
  lemma WatchedSignalIsCaught(steps: seq<Step>, i: nat)
    requires Run(steps, true).Some?
    requires var w := Run(steps, true).value;
             w.watcher.Live? && w.watches != [] && w.watches[|w.watches| - 1].claimant.None?
             && i < |w.deliveries| && w.deliveries[i].phase.Entered?
    ensures var v := Next(Run(steps, true).value, Exchange(i), true).value;
            IsClaimed(v.deliveries[i], |v.watches| - 1) && v.flag == Caught(v.deliveries[i].signal)
  {
    RunInv(steps);
  }

  /** `recv` can return exactly when the live watch has claimed a signal, and it returns that signal. */
  lemma ReceiveIff(steps: seq<Step>)
    requires Run(steps, true).Some?
    ensures var w := Run(steps, true).value;
            var r := Next(w, Receive, true);
            && (r.Some? <==> w.watcher.Live? && CurrentClaim(w).Some?)
            && (r.Some? ==>
                  && CurrentClaim(w).value < |w.deliveries|
                  && r.value.watches[|w.watches| - 1].received
                     == Some(w.deliveries[CurrentClaim(w).value].signal)
                  && r.value.deliveries == w.deliveries && r.value.flag == w.flag)
  {
    hide RunFrom, Timed;
    RunInv(steps);
  }

  /** How every delivery fares at the exchange: it claims a live watch that has no claim, is compared with a claim
      of its own kind, and keeps its default disposition otherwise. */
  lemma ExchangeIff(steps: seq<Step>, i: nat)
    requires Run(steps, true).Some?
    requires i < |Run(steps, true).value.deliveries| && Run(steps, true).value.deliveries[i].phase.Entered?
    ensures var w := Run(steps, true).value;
            var r := Next(w, Exchange(i), true);
            && r.Some?
            && (r.value.deliveries[i].phase.Storing? <==> w.watcher.Live? && CurrentClaim(w).None?)
            && (r.value.deliveries[i].phase.Checking? <==>
                  && w.watcher.Live? && CurrentClaim(w).Some? && CurrentClaim(w).value < |w.deliveries|
                  && w.deliveries[CurrentClaim(w).value].signal == w.deliveries[i].signal)
            && (r.value.deliveries[i].phase.Storing? || r.value.deliveries[i].phase.Checking?
                || r.value.deliveries[i].phase.Defaulted?)
  {
    hide RunFrom, Timed;
    RunInv(steps);
  }

  /** With the time of the current claim recorded, a repeat is ignored exactly when that claim is still being
      stored or the repeat came inside its window; otherwise it keeps its default disposition. */
  lemma RepeatIgnoredIff(steps: seq<Step>, i: nat)
    requires Run(steps, true).Some?
    requires var w := Run(steps, true).value;
             && i < |w.deliveries| && w.deliveries[i].phase.Checking?
             && w.deliveries[i].watch == Current(w) && w.firstNs == Expected(w)
    ensures var w := Run(steps, true).value;
            var r := Next(w, Check(i), true);
            && r.Some?
            && r.value.deliveries[i].phase ==
               if StillStoring(w, Current(w)) then Ignored(true)
               else if InWindow(w, w.deliveries[i]) then Ignored(false) else Defaulted
  {
    hide RunFrom, Timed, FlagOk, HandedOver;
    RunInv(steps);
    var w := Run(steps, true).value;
    assert DeliveryOk(w, i) && ClaimOk(w, Current(w));
  }

  // ----- Exactly when a watcher may be installed ---------------------------------

  predicate AllJust(w: World) {
    forall i :: 0 <= i < |w.deliveries| && w.deliveries[i].phase.Ignored? ==> JustlyIgnored(w, i)
  }

  /** A watcher is installed in `w`, whatever its handlers are doing. */
  function Installing(w: World): (v: World) {
    w.(firstNs := 0, watcher := Resetting)
  }

  ghost predicate JustAfter(w: World, steps: seq<Step>) {
    var r := RunFrom(Installing(w), steps, true);
    r.Some? ==> AllJust(r.value)
  }

  ghost predicate Reaches(start: World, w: World) {
    exists steps :: RunFrom(start, steps, true) == Some(w)
  }

  lemma ReachStart(start: World)
    ensures Reaches(start, start)
  {
    assert RunFrom(start, [], true) == Some(start);
  }

  lemma ReachNext(start: World, w: World, s: Step, v: World)
    requires Reaches(start, w) && Next(w, s, true).Some?
    requires var u := Next(w, s, true).value;
             && u.flag == v.flag && u.firstNs == v.firstNs && u.watcher == v.watcher
             && u.deliveries == v.deliveries && u.watches == v.watches
    ensures Reaches(start, v)
  {
    hide Next;
    var steps :| RunFrom(start, steps, true) == Some(w);
    assert (steps + [s])[..|steps|] == steps;
    assert RunFrom(start, steps + [s], true) == Some(v);
  }

  /** After an install, comparing at once ignores a delivery unjustly exactly when the delivery is to be
      compared, its claim is recorded, and it came outside the window. */
  lemma ResetThenCheckIff(w: World, i: nat)
    requires Inv(w) && w.watcher.Absent?
    ensures (exists v :: Next(Installing(w), Check(i), true) == Some(v)
                         && v.deliveries[i].phase.Ignored? && !JustlyIgnored(v, i))
            <==> && i < |w.deliveries| && w.deliveries[i].phase.Checking?
                 && !StillStoring(w, w.deliveries[i].watch) && !InWindow(w, w.deliveries[i])
  {
    hide InWindow, HandedOver, Timed, FlagOk;
    if i < |w.deliveries| && w.deliveries[i].phase.Checking? {
      assert DeliveryOk(w, i);
      CheckedAfterReset(w, i);
    }
  }

  lemma CheckedAfterReset(w: World, i: nat)
    requires i < |w.deliveries| && w.deliveries[i].phase.Checking? && DeliveryOk(w, i)
    ensures Next(Installing(w), Check(i), true).Some?
    ensures var v, d := Next(Installing(w), Check(i), true).value, w.deliveries[i];
            && |v.deliveries| == |w.deliveries| && v.deliveries[i].phase == Ignored(StillStoring(w, d.watch))
            && (JustlyIgnored(v, i) <==> StillStoring(w, d.watch) || InWindow(w, d))
  {
  }

  /** A new watch claims an interrupt whose handler read the clock as `now`. */
  lemma NewClaim(start: World, now: nat) returns (v: World)
    requires start.watcher.Resetting? && Latest(start) <= now
    ensures Reaches(start, v) && v.watcher.Live? && v.flag == Caught(Interrupt) && v.firstNs == start.firstNs
    ensures v.watches == start.watches + [Watch(Some(|start.deliveries|), None, None)]
    ensures v.deliveries == start.deliveries + [Delivery(Interrupt, now, Storing, |start.watches|)]
  {
    var none := Watch(None, None, None);
    ReachStart(start);
    var live := start.(flag := Watching, watcher := Live, watches := start.watches + [none]);
    ReachNext(start, start, InstallWatch, live);
    var j := |start.deliveries|;
    var entered := live.(deliveries := start.deliveries + [Delivery(Interrupt, now, Entered, 0)]);
    ReachNext(start, live, Deliver(Interrupt, now), entered);
    v := entered.(flag := Caught(Interrupt),
                  deliveries := start.deliveries + [Delivery(Interrupt, now, Storing, |start.watches|)],
                  watches := start.watches + [none.(claimant := Some(j))]);
    ReachNext(start, entered, Exchange(j), v);
  }

  lemma RecordNext(start: World, w: World, i: nat)
    requires Reaches(start, w) && i < |w.deliveries| && w.deliveries[i].phase.Storing?
    ensures Reaches(start, w.(firstNs := Time(w.deliveries[i]),
                              deliveries := w.deliveries[i := w.deliveries[i].(phase := Claimed)]))
  {
    ReachNext(start, w, Record(i), Next(w, Record(i), true).value);
  }

  /** A delivery on its way claims the new watch, and then an earlier claim is recorded over its time. */
  lemma RecordedOver(w: World, x: nat, c: nat) returns (v: World)
    requires w.watcher.Absent? && x < |w.deliveries| && w.deliveries[x].phase.Storing?
    requires c < |w.deliveries| && w.deliveries[c].phase.Entered?
    ensures Reaches(Installing(w), v) && v.watcher.Live? && v.flag == Caught(w.deliveries[c].signal)
    ensures v.firstNs == Time(w.deliveries[x])
    ensures v.watches == w.watches + [Watch(Some(c), None, None)]
    ensures v.deliveries == w.deliveries[c := w.deliveries[c].(phase := Claimed, watch := |w.watches|)]
                                        [x := w.deliveries[x].(phase := Claimed)]
  {
    var start, k := Installing(w), |w.watches|;
    var none, d := Watch(None, None, None), w.deliveries[c];
    ReachStart(start);
    var live := start.(flag := Watching, watcher := Live, watches := w.watches + [none]);
    ReachNext(start, start, InstallWatch, live);
    v := live.(flag := Caught(d.signal), watches := w.watches + [none.(claimant := Some(c))],
               deliveries := w.deliveries[c := d.(phase := Storing, watch := k)]);
    ReachNext(start, live, Exchange(c), v);
    RecordNext(start, v, c);
    v := v.(firstNs := Time(d), deliveries := v.deliveries[c := v.deliveries[c].(phase := Claimed)]);
    RecordNext(start, v, x);
    v := v.(firstNs := Time(w.deliveries[x]), deliveries := v.deliveries[x := v.deliveries[x].(phase := Claimed)]);
  }

  /** A repeat of that claim that is misled by the time recorded over it is ignored. */
  lemma MisledIsIgnored(start: World, w: World, i: nat, c: nat) returns (v: World)
    requires Reaches(start, w) && w.watches != [] && w.watches[|w.watches| - 1].claimant == Some(c)
    requires i < |w.deliveries| && w.deliveries[i].phase.Entered?
    requires c < |w.deliveries| && w.deliveries[c].phase.Claimed?
    requires w.flag == Caught(w.deliveries[i].signal) && w.firstNs > 0
    requires Misled(w.deliveries[i].now, Time(w.deliveries[c]), w.firstNs)
    ensures Reaches(start, v) && !AllJust(v)
  {
    var k, d := |w.watches| - 1, w.deliveries[i];
    var checking := w.(deliveries := w.deliveries[i := d.(phase := Checking, watch := k)]);
    ReachNext(start, w, Exchange(i), checking);
    assert !StillStoring(checking, k);
    v := w.(deliveries := w.deliveries[i := d.(phase := Ignored(false), watch := k)]);
    ReachNext(start, checking, Check(i), v);
    assert v.deliveries[i].phase.Ignored? && !JustlyIgnored(v, i);
  }

  /** A threatened claim is unsafe: the repeat that is misled is on its way, or can still come. */
  lemma ThreatIsUnsafe(w: World, x: nat, c: nat) returns (v: World)
    requires w.watcher.Absent? && Ordered(w) && (forall i :: 0 <= i < |w.deliveries| ==> DeliveryOk(w, i))
    requires x < |w.deliveries| && w.deliveries[x].phase.Storing?
    requires c < |w.deliveries| && w.deliveries[c].phase.Entered?
    requires Threat(w, |w.watches|, c, Time(w.deliveries[x]))
    ensures Reaches(Installing(w), v) && !AllJust(v)
  {
    var start, stale, claim := Installing(w), Time(w.deliveries[x]), Time(w.deliveries[c]);
    v := RecordedOver(w, x, c);
    if Latest(w) < stale + REPEAT_WINDOW_NS {
      var now, m := Max(Latest(w), claim + REPEAT_WINDOW_NS), |w.deliveries|;
      SameLatest(w, v);
      var more := v.(deliveries := v.deliveries + [Delivery(w.deliveries[c].signal, now, Entered, 0)]);
      ReachNext(start, v, Deliver(w.deliveries[c].signal, now), more);
      v := MisledIsIgnored(start, more, m, c);
    } else {
      var i :| 0 <= i < |w.deliveries| && Compares(w, |w.watches|, i) && i != c
               && w.deliveries[i].signal == w.deliveries[c].signal
               && Misled(w.deliveries[i].now, claim, stale);
      assert DeliveryOk(w, i);
      v := MisledIsIgnored(start, v, i, c);
    }
  }

  /** A repeat from outside the window is compared with the time of the new watch's claim. */
  lemma LateIsUnsafe(w: World, i: nat) returns (v: World)
    requires Inv(w) && w.watcher.Absent? && i < |w.deliveries| && w.deliveries[i].phase.Checking?
    requires !InWindow(w, w.deliveries[i])
    ensures Reaches(Installing(w), v) && !AllJust(v)
  {
    var start, d := Installing(w), w.deliveries[i];
    assert DeliveryOk(w, i);
    if StillStoring(w, d.watch) {
      assert ClaimOk(w, d.watch);
      EarlierThanLatest(w);
      v := LateBehindClaim(w, i, w.watches[d.watch].claimant.value);
    } else {
      CheckedAfterReset(w, i);
      v := Next(start, Check(i), true).value;
      ReachStart(start);
      ReachNext(start, start, Check(i), v);
      assert v.deliveries[i].phase.Ignored?;
    }
  }

  lemma LateBehindClaim(w: World, i: nat, c: nat) returns (v: World)
    requires w.watcher.Absent? && i < |w.deliveries| && w.deliveries[i].phase.Checking? && DeliveryOk(w, i)
    requires !InWindow(w, w.deliveries[i]) && w.watches[w.deliveries[i].watch].claimant == Some(c)
    requires c < |w.deliveries| && w.deliveries[c].phase.Storing? && w.deliveries[i].now <= Latest(w)
    ensures Reaches(Installing(w), v) && !AllJust(v)
  {
    var start, d, j, late := Installing(w), w.deliveries[i], |w.deliveries|, Latest(w);
    v := NewClaim(start, late);
    RecordNext(start, v, c);
    v := v.(firstNs := Time(w.deliveries[c]), deliveries := v.deliveries[c := v.deliveries[c].(phase := Claimed)]);
    RecordNext(start, v, j);
    v := v.(firstNs := Max(late, 1), deliveries := v.deliveries[j := v.deliveries[j].(phase := Claimed)]);
    var ignored := v.(deliveries := v.deliveries[i := d.(phase := Ignored(false))]);
    assert v.deliveries[i] == d && v.watches[d.watch] == w.watches[d.watch] && !StillStoring(v, d.watch);
    ReachNext(start, v, Check(i), ignored);
    v := ignored;
    assert v.deliveries[c].now == w.deliveries[c].now;
    assert v.deliveries[i].phase.Ignored? && !JustlyIgnored(v, i);
  }

  lemma InstalledInv(w: World)
    requires Inv(w) && w.watcher.Absent? && MayInstall(w)
    ensures Inv(Installing(w))
  {
    assert Next(w, InstallReset, true) == Some(Installing(w));
    NextInv(w, InstallReset);
  }

  lemma InvIsJust(w: World)
    requires Inv(w)
    ensures AllJust(w)
  {
    forall i | 0 <= i < |w.deliveries| && w.deliveries[i].phase.Ignored? ensures JustlyIgnored(w, i) {
      assert DeliveryOk(w, i);
    }
  }

  /** The guard is exact: after an install in `w`, deliveries are ignored only justly in every continuation
      exactly when the guard allowed it. */
  lemma InstallSafeIff(w: World)
    requires Inv(w) && w.watcher.Absent?
    ensures MayInstall(w) <==> forall steps :: JustAfter(w, steps)
  {
    hide Next, RunFrom, AllJust, Inv;
    if MayInstall(w) {
      forall steps ensures JustAfter(w, steps) {
        if RunFrom(Installing(w), steps, true).Some? {
          InstalledInv(w);
          RunFromInv(Installing(w), steps);
          InvIsJust(RunFrom(Installing(w), steps, true).value);
        }
      }
    } else {
      var v := NotAllowedIsUnsafe(w);
      var steps :| RunFrom(Installing(w), steps, true) == Some(v);
      assert !JustAfter(w, steps);
    }
  }

  lemma NotAllowedIsUnsafe(w: World) returns (v: World)
    requires Inv(w) && w.watcher.Absent? && !MayInstall(w)
    ensures Reaches(Installing(w), v) && !AllJust(v)
  {
    hide InWindow, Threat, AllJust, Reaches, FlagOk, ClaimOk, HandedOver, DeliveryOk, Harmless, Expected;
    if i :| 0 <= i < |w.deliveries| && w.deliveries[i].phase.Checking? && !InWindow(w, w.deliveries[i]) {
      v := LateIsUnsafe(w, i);
    } else {
      var x, c :| 0 <= x < |w.deliveries| && 0 <= c < |w.deliveries|
                  && w.deliveries[x].phase.Storing? && w.deliveries[c].phase.Entered?
                  && Threat(w, |w.watches|, c, Time(w.deliveries[x]));
      v := ThreatIsUnsafe(w, x, c);
    }
  }

  /** A first watch has caught an interrupt and recorded its time. */
  lemma CaughtOnce() returns (w: World)
    ensures Reaches(START, w)
    ensures w == World(Caught(Interrupt), 1, Live, [Delivery(Interrupt, 1, Claimed, 0)], [Watch(Some(0), None, None)])
  {
    var reset := START.(watcher := Resetting);
    ReachStart(START);
    ReachNext(START, START, InstallReset, reset);
    var storing := NewClaim(reset, 1);
    ReachTrans(START, reset, storing);
    w := World(Caught(Interrupt), 1, Live, [Delivery(Interrupt, 1, Claimed, 0)], [Watch(Some(0), None, None)]);
    ReachNext(START, storing, Record(0), w);
  }

  /** The guard is needed: a run reaches a process with no watcher where none may be installed yet. */
  lemma GuardNeeded()
    ensures exists w :: Reaches(START, w) && w.watcher.Absent? && !MayInstall(w)
  {
    hide Reaches, Threat;
    var late := 4 * REPEAT_WINDOW_NS;
    var w := CaughtOnce();
    var d0, d1 := w.deliveries[0], Delivery(Interrupt, late, Entered, 0);
    var entered := w.(deliveries := [d0, d1]);
    ReachNext(START, w, Deliver(Interrupt, late), entered);
    var checking := w.(deliveries := [d0, d1.(phase := Checking)]);
    ReachNext(START, entered, Exchange(1), checking);
    var left := World(Idle, 1, Absent, checking.deliveries, [Watch(Some(0), None, Some(Some(Interrupt)))]);
    ReachNext(START, checking, Finish, left);
    assert !InWindow(left, left.deliveries[1]);
  }

  lemma ReachTrans(a: World, b: World, c: World)
    requires Reaches(a, b) && Reaches(b, c)
    ensures Reaches(a, c)
  {
    hide Next;
    var steps :| RunFrom(a, steps, true) == Some(b);
    var more :| RunFrom(b, more, true) == Some(c);
    RunAppend(a, steps, more);
  }

  lemma {:induction false} RunAppend(start: World, a: seq<Step>, b: seq<Step>)
    requires RunFrom(start, a, true).Some?
    ensures RunFrom(start, a + b, true) == RunFrom(RunFrom(start, a, true).value, b, true)
    decreases b
  {
    hide Next;
    if b == [] {
      assert a + b == a;
    } else {
      RunAppend(start, a, b[..|b| - 1]);
      assert (a + b)[..|a + b| - 1] == a + b[..|b| - 1];
    }
  }
}
