/** The run event bus: a broadcast ring and paced publication over it. */
module Events {
  import opened Common

  const MAX_LOG_CHUNK_BYTES: nat := 16 * 1024

  /** `PACING_STALL`, in milliseconds. */
  const PACING_STALL: nat := 5000

  datatype Event = LogChunk(bytes: nat) | Other

  /** How many messages `publish` sends for one event. */
  function Messages(e: Event): (n: nat)
    ensures n > 0
  {
    if e.LogChunk? && e.bytes > MAX_LOG_CHUNK_BYTES
    then (e.bytes + (MAX_LOG_CHUNK_BYTES - 1)) / MAX_LOG_CHUNK_BYTES
    else 1
  }

  /** The producer inside `publish_all`: waiting for room, having seen room, or no longer pacing. */
  datatype Producer = Waiting | Ready | Unpaced

  /** The ring, which holds at least `capacity` messages; how many were sent; and for each subscriber
      that is still attached, how many it has taken. `lagged` counts the messages subscribers lost. */
  datatype Bus = Bus(capacity: nat, ring: nat, sent: nat, taken: seq<Option<nat>>, lagged: nat, producer: Producer)

  function HighWater(capacity: nat): (n: nat)
    ensures 0 < n && (capacity > 0 ==> n <= capacity)
  {
    Max(capacity / 2, 1)
  }

  function Unread(b: Bus, i: nat): (n: nat)
    requires i < |b.taken|
  {
    if b.taken[i].None? then 0 else SaturatingSub(b.sent, b.taken[i].value)
  }

  /** `Sender::len`: what the slowest subscriber has not taken, as far as the ring still holds it. */
  function Len(b: Bus): (n: nat) {
    LenUpTo(b, |b.taken|)
  }

  function LenUpTo(b: Bus, k: nat): (n: nat)
    requires k <= |b.taken|
  {
    if k == 0 then 0 else Max(LenUpTo(b, k - 1), Min(Unread(b, k - 1), b.ring))
  }

  lemma {:induction false} LenBounds(b: Bus, k: nat)
    requires k <= |b.taken|
    ensures forall i :: 0 <= i < k ==> Min(Unread(b, i), b.ring) <= LenUpTo(b, k)
    ensures LenUpTo(b, k) == 0 || exists i :: 0 <= i < k && Min(Unread(b, i), b.ring) == LenUpTo(b, k)
  {
    if k == 0 {
    } else {
      LenBounds(b, k - 1);
      if LenUpTo(b, k) == LenUpTo(b, k - 1) && LenUpTo(b, k) != 0 {
        var i :| 0 <= i < k - 1 && Min(Unread(b, i), b.ring) == LenUpTo(b, k - 1);
      } else {
        assert Min(Unread(b, k - 1), b.ring) == LenUpTo(b, k);
      }
    }
  }

  datatype Step =
    | Subscribe
    | Unsubscribe(i: nat)
    | Receive(i: nat)
    | Poll
    | Stall
    | Publish(event: Event)

  /** Taking a message; a subscriber that fell behind the ring first loses what the ring dropped. */
  function ReceiveStep(b: Bus, i: nat): (r: Bus)
    requires i < |b.taken| && b.taken[i].Some?
  {
    var unread := Unread(b, i);
    if unread > b.ring then
      b.(taken := b.taken[i := Some(b.sent - b.ring)], lagged := b.lagged + (unread - b.ring))
    else if unread > 0 then b.(taken := b.taken[i := Some(b.taken[i].value + 1)])
    else b
  }

  /** One atomic step; `None` when it is not enabled. Only `publish_all` sends. */
  function Next(b: Bus, step: Step): (r: Option<Bus>) {
    match step
    case Subscribe => Some(b.(taken := b.taken + [Some(b.sent)]))
    case Unsubscribe(i) => if i < |b.taken| then Some(b.(taken := b.taken[i := None])) else None
    case Receive(i) => if i < |b.taken| && b.taken[i].Some? then Some(ReceiveStep(b, i)) else None
    case Poll =>
      if b.producer.Waiting? then
        Some(if Len(b) < HighWater(b.capacity) then b.(producer := Ready) else b)
      else None
    case Stall => if b.producer.Waiting? then Some(b.(producer := Unpaced)) else None
    case Publish(e) =>
      if b.producer.Waiting? then None
      else Some(b.(sent := b.sent + Messages(e), producer := if b.producer.Ready? then Waiting else Unpaced))
  }

  function Run(b: Bus, steps: seq<Step>): (r: Option<Bus>) {
    if steps == [] then Some(b)
    else
      match Run(b, steps[..|steps| - 1])
      case None => None
      case Some(c) => Next(c, steps[|steps| - 1])
  }

  // ----- No event is lost while pacing -------------------------------------------

  /** Every attached subscriber's unread messages are still in the ring. */
  predicate AllInRing(b: Bus) {
    forall i :: 0 <= i < |b.taken| ==> Unread(b, i) <= b.ring
  }

  /** No subscriber has taken more than was sent. */
  predicate Sound(b: Bus) {
    && 0 < b.capacity <= b.ring
    && forall i :: 0 <= i < |b.taken| && b.taken[i].Some? ==> b.taken[i].value <= b.sent
  }

  /** What an event may send at once without overrunning a subscriber that left room. */
  predicate FitsRoom(b: Bus, e: Event) {
    Messages(e) <= b.ring + 1 - HighWater(b.capacity)
  }

  /** Room was seen and nothing was sent since. */
  predicate RoomLeft(b: Bus) {
    forall i :: 0 <= i < |b.taken| ==> Unread(b, i) < HighWater(b.capacity)
  }

  predicate Paced(b: Bus) {
    Sound(b) && AllInRing(b) && !b.producer.Unpaced? && (b.producer.Ready? ==> RoomLeft(b))
  }

  lemma PolledRoom(b: Bus)
    requires Sound(b) && Len(b) < HighWater(b.capacity)
    ensures RoomLeft(b)
  {
    LenBounds(b, |b.taken|);
  }

  lemma NextPaced(b: Bus, step: Step)
    requires Paced(b) && Next(b, step).Some? && !step.Stall?
    requires step.Publish? ==> FitsRoom(b, step.event)
    ensures var c := Next(b, step).value;
            Paced(c) && c.lagged == b.lagged && c.capacity == b.capacity && c.ring == b.ring
  {
    var c := Next(b, step).value;
    if step.Poll? && Len(b) < HighWater(b.capacity) {
      PolledRoom(b);
    }
    forall i | 0 <= i < |c.taken|
      ensures Unread(c, i) <= c.ring && (c.producer.Ready? ==> Unread(c, i) < HighWater(c.capacity))
    {
      if i < |b.taken| {
        assert Unread(b, i) <= b.ring;
      }
    }
  }

  /** Every event of the run fits the room left for it. */
  predicate AllFit(b: Bus, steps: seq<Step>) {
    forall i :: 0 <= i < |steps| && steps[i].Publish? ==> FitsRoom(b, steps[i].event)
  }

  predicate NeverStalls(steps: seq<Step>) {
    forall i :: 0 <= i < |steps| ==> !steps[i].Stall?
  }

  /** While pacing is in force no subscriber loses a message, whatever the subscribers do. */
  lemma {:induction false} PacingLosesNothing(b: Bus, steps: seq<Step>)
    requires Paced(b) && Run(b, steps).Some? && NeverStalls(steps) && AllFit(b, steps)
    ensures var c := Run(b, steps).value;
            Paced(c) && c.lagged == b.lagged && c.capacity == b.capacity && c.ring == b.ring
  {
    if steps == [] {
    } else {
      var n := |steps| - 1;
      PacingLosesNothing(b, steps[..n]);
      NextPaced(Run(b, steps[..n]).value, steps[n]);
    }
  }

  /** An event that becomes one message always fits. */
  lemma SingleMessageFits(b: Bus, e: Event)
    requires Sound(b) && Messages(e) == 1
    ensures FitsRoom(b, e)
  {
  }

  // ----- What a subscriber receives ----------------------------------------------

  function Receives(i: nat, n: nat): (steps: seq<Step>) {
    seq(n, _ => Receive(i))
  }

  /** `b` once subscriber `i` has taken up to message `taken`. */
  function TakenTo(b: Bus, i: nat, taken: nat): (r: Bus)
    requires i < |b.taken|
  {
    b.(taken := b.taken[i := Some(taken)])
  }

  lemma {:induction false} TakesInTurn(b: Bus, i: nat, n: nat)
    requires i < |b.taken| && b.taken[i].Some? && n <= Unread(b, i) <= b.ring
    ensures Run(b, Receives(i, n)) == Some(TakenTo(b, i, b.taken[i].value + n))
    decreases n
  {
    if n == 0 {
      assert b.taken[i := b.taken[i]] == b.taken;
    } else {
      TakesInTurn(b, i, n - 1);
      var k := b.taken[i].value + n;
      assert Receives(i, n)[..n - 1] == Receives(i, n - 1) && Receives(i, n)[n - 1] == Receive(i);
      var c := TakenTo(b, i, k - 1);
      assert Unread(c, i) == Unread(b, i) - (n - 1);
      assert c.taken[i := Some(k)] == b.taken[i := Some(k)];
    }
  }

  /** A subscriber within the ring takes its unread messages one by one, all of them, and loses none. */
  lemma TakesEveryMessage(b: Bus, i: nat)
    requires Sound(b) && i < |b.taken| && b.taken[i].Some? && Unread(b, i) <= b.ring
    ensures Run(b, Receives(i, Unread(b, i))) == Some(TakenTo(b, i, b.sent))
  {
    TakesInTurn(b, i, Unread(b, i));
  }

  /** A subscriber that fell behind loses exactly what the ring dropped, is told so once, and then takes the rest. */
  lemma LaggardTakesTheRing(b: Bus, i: nat)
    requires Sound(b) && i < |b.taken| && b.taken[i].Some? && Unread(b, i) > b.ring
    ensures var c := Next(b, Receive(i));
            && c.Some? && c.value.lagged - b.lagged == Unread(b, i) - b.ring
            && i < |c.value.taken| && c.value.sent == b.sent
            && Run(c.value, Receives(i, b.ring)) == Some(TakenTo(c.value, i, b.sent))
  {
    var c := Next(b, Receive(i)).value;
    TakesEveryMessage(c, i);
  }

  /** A waiting producer sees room exactly when every attached subscriber has fewer unread messages than the mark. */
  lemma PollIff(b: Bus)
    requires Sound(b) && b.producer.Waiting?
    ensures Next(b, Poll).Some? && (Next(b, Poll).value.producer.Ready? <==> RoomLeft(b))
    ensures Next(b, Poll).value == b.(producer := Next(b, Poll).value.producer)
  {
    LenBounds(b, |b.taken|);
  }

  /** One that stalls, or has seen room, publishes; one that waits does not. */
  lemma PublishIff(b: Bus, e: Event)
    ensures Next(b, Publish(e)).Some? <==> !b.producer.Waiting?
    ensures b.producer.Waiting? ==> Next(b, Stall).Some? && Next(Next(b, Stall).value, Publish(e)).Some?
    ensures Next(b, Publish(e)).Some? ==>
              && Next(b, Publish(e)).value.taken == b.taken
              && forall i :: 0 <= i < |b.taken| && b.taken[i].Some? && b.taken[i].value <= b.sent ==>
                   Unread(Next(b, Publish(e)).value, i) == Unread(b, i) + Messages(e)
  {
  }

  /** A subscriber that leaves holds nobody back; one that arrives starts with nothing unread. */
  lemma ComesAndGoes(b: Bus, i: nat)
    requires i < |b.taken|
    ensures var left, come := Next(b, Unsubscribe(i)), Next(b, Subscribe);
            && left.Some? && come.Some?
            && Unread(left.value, i) == 0 && Unread(come.value, |b.taken|) == 0
            && (forall j :: 0 <= j < |b.taken| && j != i ==> Unread(left.value, j) == Unread(b, j))
            && (forall j :: 0 <= j < |b.taken| ==> Unread(come.value, j) == Unread(b, j))
  {
  }

  // ----- Exactly which events fit ------------------------------------------------

  /** `RunEventBus::new`; the channel may round its ring up. */
  function NewBus(capacity: nat, ring: nat): (b: Bus) {
    Bus(capacity, ring, 0, [], 0, Waiting)
  }

  /** Whatever was sent before, a producer that has seen room leaves it seen. */
  lemma NextReady(b: Bus, step: Step)
    requires Sound(b) && (b.producer.Ready? ==> RoomLeft(b)) && Next(b, step).Some?
    ensures var c := Next(b, step).value;
            Sound(c) && (c.producer.Ready? ==> RoomLeft(c)) && c.capacity == b.capacity && c.ring == b.ring
  {
    if step.Poll? && Len(b) < HighWater(b.capacity) {
      PolledRoom(b);
    }
    hide HighWater, Len, Messages;
    var c := Next(b, step).value;
    if c.producer.Ready? {
      assert RoomLeft(b) && !step.Publish?;
      forall i | 0 <= i < |c.taken| ensures Unread(c, i) < HighWater(c.capacity) {
        if i < |b.taken| {
          assert Unread(b, i) < HighWater(b.capacity) && Unread(c, i) <= Unread(b, i);
        } else {
          assert Unread(c, i) == 0;
        }
      }
    }
  }

  lemma {:induction false} RunReady(capacity: nat, ring: nat, steps: seq<Step>)
    requires 0 < capacity <= ring && Run(NewBus(capacity, ring), steps).Some?
    ensures var c := Run(NewBus(capacity, ring), steps).value;
            Sound(c) && (c.producer.Ready? ==> RoomLeft(c)) && c.capacity == capacity && c.ring == ring
  {
    hide Next, RoomLeft;
    if steps == [] {
    } else {
      var n := |steps| - 1;
      RunReady(capacity, ring, steps[..n]);
      NextReady(Run(NewBus(capacity, ring), steps[..n]).value, steps[n]);
    }
  }

  /** A subscriber attaches, and `k` messages are published that it does not take. */
  function Backlog(k: nat): (steps: seq<Step>) {
    if k == 0 then [Subscribe] else Backlog(k - 1) + [Poll] + [Publish(Other)]
  }

  function Behind(capacity: nat, ring: nat, k: nat, producer: Producer): (b: Bus) {
    Bus(capacity, ring, k, [Some(0)], 0, producer)
  }

  lemma RunSnoc(b: Bus, steps: seq<Step>, step: Step)
    ensures Run(b, steps + [step]) == match Run(b, steps) case None => None case Some(c) => Next(c, step)
  {
    assert (steps + [step])[..|steps|] == steps;
  }

  lemma LenBehind(capacity: nat, ring: nat, k: nat, producer: Producer)
    requires k <= ring
    ensures Len(Behind(capacity, ring, k, producer)) == k
  {
    var b := Behind(capacity, ring, k, producer);
    assert LenUpTo(b, 1) == Max(LenUpTo(b, 0), Min(Unread(b, 0), b.ring));
  }

  lemma BacklogPolled(capacity: nat, ring: nat, k: nat)
    requires 0 < capacity <= ring && k < HighWater(capacity)
    requires Run(NewBus(capacity, ring), Backlog(k)) == Some(Behind(capacity, ring, k, Waiting))
    ensures Run(NewBus(capacity, ring), Backlog(k) + [Poll]) == Some(Behind(capacity, ring, k, Ready))
  {
    hide HighWater, Len, Run, Backlog;
    LenBehind(capacity, ring, k, Waiting);
    RunSnoc(NewBus(capacity, ring), Backlog(k), Poll);
  }

  /** The producer sees room as long as the backlog is below the high-water mark. */
  lemma {:induction false} RunBacklog(capacity: nat, ring: nat, k: nat)
    requires 0 < capacity <= ring && k < HighWater(capacity)
    ensures Run(NewBus(capacity, ring), Backlog(k)) == Some(Behind(capacity, ring, k, Waiting))
    ensures Run(NewBus(capacity, ring), Backlog(k) + [Poll]) == Some(Behind(capacity, ring, k, Ready))
  {
    hide HighWater, Len, Run;
    var b := NewBus(capacity, ring);
    if k == 0 {
      RunNothing(b);
      RunSnoc(b, [], Subscribe);
      assert [] + [Subscribe] == [Subscribe];
      assert b.taken + [Some(b.sent)] == [Some(0)];
    } else {
      RunBacklog(capacity, ring, k - 1);
      RunSnoc(b, Backlog(k - 1) + [Poll], Publish(Other));
    }
    BacklogPolled(capacity, ring, k);
  }

  lemma RunNothing(b: Bus)
    ensures Run(b, []) == Some(b)
  {
  }

  lemma RoomHolds(b: Bus, e: Event)
    requires Sound(b) && FitsRoom(b, e) && b.producer.Ready? && RoomLeft(b)
    ensures AllInRing(Next(b, Publish(e)).value)
  {
    hide HighWater, Messages;
    var c := Next(b, Publish(e)).value;
    forall i | 0 <= i < |c.taken| ensures Unread(c, i) <= c.ring {
      assert Unread(b, i) < HighWater(b.capacity);
    }
  }

  /** An event overruns no subscriber of any bus of this size whose producer has seen room, exactly when its
      messages fit above the high-water mark. */
  lemma FitsIff(capacity: nat, ring: nat, e: Event)
    requires 0 < capacity <= ring
    ensures (forall steps :: NeverOverrun(capacity, ring, steps, e)) <==>
            Messages(e) <= ring + 1 - HighWater(capacity)
  {
    hide HighWater, Messages, Run;
    var k := HighWater(capacity) - 1;
    if Messages(e) <= ring + 1 - HighWater(capacity) {
      forall steps ensures NeverOverrun(capacity, ring, steps, e) {
        var r := Run(NewBus(capacity, ring), steps);
        if r.Some? && r.value.producer.Ready? {
          RunReady(capacity, ring, steps);
          RoomHolds(r.value, e);
        }
      }
    } else {
      RunBacklog(capacity, ring, k);
      var c := Next(Behind(capacity, ring, k, Ready), Publish(e)).value;
      assert Unread(c, 0) == k + Messages(e);
      assert !NeverOverrun(capacity, ring, Backlog(k) + [Poll], e);
    }
  }

  /** If these steps leave the producer having seen room, publishing `e` drops no unread message. */
  ghost predicate NeverOverrun(capacity: nat, ring: nat, steps: seq<Step>, e: Event) {
    var r := Run(NewBus(capacity, ring), steps);
    r.Some? && r.value.producer.Ready? ==> AllInRing(Next(r.value, Publish(e)).value)
  }

  predicate AtMost(steps: seq<Step>, m: nat) {
    forall i :: 0 <= i < |steps| && steps[i].Publish? ==> Messages(steps[i].event) <= m
  }

  ghost predicate LossFree(capacity: nat, ring: nat, m: nat) {
    forall steps :: Run(NewBus(capacity, ring), steps).Some? && NeverStalls(steps) && AtMost(steps, m)
                    ==> Run(NewBus(capacity, ring), steps).value.lagged == 0
  }

  /** Pacing that never stalls loses nothing in any run of events of at most `m` messages, exactly when `m`
      messages fit above the high-water mark. */
  lemma LossFreeIff(capacity: nat, ring: nat, m: nat)
    requires 0 < capacity <= ring
    ensures LossFree(capacity, ring, m) <==> m <= ring + 1 - HighWater(capacity)
  {
    hide HighWater, Messages, Run, Next;
    var b := NewBus(capacity, ring);
    if m <= ring + 1 - HighWater(capacity) {
      forall steps | Run(b, steps).Some? && NeverStalls(steps) && AtMost(steps, m)
        ensures Run(b, steps).value.lagged == 0
      {
        assert AllFit(b, steps);
        PacingLosesNothing(b, steps);
      }
    } else {
      var steps := Overrun(capacity, ring, m);
    }
  }

  lemma ChunkMessages(m: nat)
    requires m >= 2
    ensures Messages(LogChunk(m * MAX_LOG_CHUNK_BYTES)) == m
  {
  }

  lemma {:induction false} BacklogPaced(k: nat)
    ensures NeverStalls(Backlog(k)) && AtMost(Backlog(k), 1)
  {
    if k == 0 {
    } else {
      BacklogPaced(k - 1);
    }
  }

  /** A run that loses a message to one event of `m` messages. */
  lemma Overrun(capacity: nat, ring: nat, m: nat) returns (steps: seq<Step>)
    requires 0 < capacity <= ring && m > ring + 1 - HighWater(capacity)
    ensures NeverStalls(steps) && AtMost(steps, m)
    ensures Run(NewBus(capacity, ring), steps).Some? && Run(NewBus(capacity, ring), steps).value.lagged > 0
  {
    hide HighWater, Messages, Run;
    var b, k, e := NewBus(capacity, ring), HighWater(capacity) - 1, LogChunk(m * MAX_LOG_CHUNK_BYTES);
    ChunkMessages(m);
    RunBacklog(capacity, ring, k);
    BacklogPaced(k);
    var front := Backlog(k) + [Poll];
    RunSnoc(b, front, Publish(e));
    RunSnoc(b, front + [Publish(e)], Receive(0));
    steps := front + [Publish(e)] + [Receive(0)];
  }

  /** A log chunk of 17 messages on a ring of 16: a subscriber that reads as soon as it can loses one. */
  lemma SplitChunkOverruns()
    ensures var steps := [Subscribe, Poll, Publish(LogChunk(17 * MAX_LOG_CHUNK_BYTES)), Receive(0)];
            Run(NewBus(16, 16), steps).Some? && Run(NewBus(16, 16), steps).value.lagged == 1
  {
    hide Run;
    var b, e := NewBus(16, 16), LogChunk(17 * MAX_LOG_CHUNK_BYTES);
    ChunkMessages(17);
    RunBacklog(16, 16, 0);
    RunSnoc(b, [Subscribe, Poll], Publish(e));
    RunSnoc(b, [Subscribe, Poll, Publish(e)], Receive(0));
    assert Backlog(0) + [Poll] == [Subscribe, Poll];
    assert [Subscribe, Poll] + [Publish(e)] == [Subscribe, Poll, Publish(e)];
    assert [Subscribe, Poll, Publish(e)] + [Receive(0)] == [Subscribe, Poll, Publish(e), Receive(0)];
  }

  // ----- Waiting ends ------------------------------------------------------------

  lemma {:induction false} LenMonotone(b: Bus, c: Bus, k: nat)
    requires k <= |b.taken| && |b.taken| <= |c.taken| && b.ring == c.ring
    requires forall i :: 0 <= i < |b.taken| ==> Unread(c, i) <= Unread(b, i)
    ensures LenUpTo(c, k) <= LenUpTo(b, k)
  {
    if k == 0 {
    } else {
      LenMonotone(b, c, k - 1);
      assert Unread(c, k - 1) <= Unread(b, k - 1);
    }
  }

  /** While nothing is published the backlog can only shrink, also when subscribers come and go. */
  lemma BacklogOnlyShrinks(b: Bus, step: Step)
    requires Sound(b) && Next(b, step).Some? && !step.Publish?
    ensures Len(Next(b, step).value) <= Len(b)
  {
    var c := Next(b, step).value;
    assert forall i :: 0 <= i < |b.taken| ==> Unread(c, i) <= Unread(b, i);
    LenMonotone(b, c, |b.taken|);
    if step.Subscribe? {
      assert Unread(c, |b.taken|) == 0;
    }
  }

  predicate NoPublish(steps: seq<Step>) {
    forall i :: 0 <= i < |steps| ==> !steps[i].Publish?
  }

  /** Over any steps without a publication the backlog never grows. */
  lemma {:induction false} QuietRunShrinks(b: Bus, steps: seq<Step>, i: nat, j: nat)
    requires Sound(b) && Run(b, steps).Some? && NoPublish(steps) && i <= j <= |steps|
    ensures Run(b, steps[..i]).Some? && Run(b, steps[..j]).Some?
    ensures Sound(Run(b, steps[..j]).value)
    ensures Len(Run(b, steps[..j]).value) <= Len(Run(b, steps[..i]).value)
    decreases |steps|, j
  {
    hide Next, Len, Sound;
    if j < |steps| {
      var front := steps[..|steps| - 1];
      QuietRunShrinks(b, front, i, j);
      assert front[..i] == steps[..i] && front[..j] == steps[..j];
    } else {
      assert steps[..j] == steps;
      if i < j {
        var front := steps[..j - 1];
        QuietRunShrinks(b, front, i, j - 1);
        assert front[..i] == steps[..i] && front[..j - 1] == front;
        BacklogOnlyShrinks(Run(b, front).value, steps[j - 1]);
        NextSound(Run(b, front).value, steps[j - 1]);
      } else if j > 0 {
        var front := steps[..j - 1];
        QuietRunShrinks(b, front, j - 1, j - 1);
        assert front[..j - 1] == front;
        NextSound(Run(b, front).value, steps[j - 1]);
      }
    }
  }

  lemma NextSound(b: Bus, step: Step)
    requires Sound(b) && Next(b, step).Some?
    ensures Sound(Next(b, step).value)
  {
  }

  /** `c` is `b` after some steps of subscribers, with nothing published. */
  ghost predicate Quietly(b: Bus, c: Bus) {
    exists steps :: NoPublish(steps) && Run(b, steps) == Some(c)
  }

  lemma QuietlyShrinks(b: Bus, c: Bus)
    requires Sound(b) && Quietly(b, c)
    ensures Sound(c) && Len(c) <= Len(b)
  {
    hide Len, Sound;
    var steps :| NoPublish(steps) && Run(b, steps) == Some(c);
    assert steps[..|steps|] == steps && steps[..0] == [];
    QuietRunShrinks(b, steps, 0, |steps|);
  }

  /** The longest `n` waits without progress can take: a stall period, and one sleep that ends after it, each. */
  function Stalls(n: nat, gap: nat): (ms: nat) {
    n * (PACING_STALL + gap)
  }

  lemma StallsStep(n: nat, most: nat, gap: nat)
    ensures Stalls(n, gap) + PACING_STALL + gap == Stalls(n + 1, gap)
    ensures n <= most ==> Stalls(n, gap) <= Stalls(most, gap)
  {
  }

  /** `bus(i)` and `clock(i)` are the bus and the time in milliseconds at the `i`-th look; nothing is published
      between two looks, and each sleep takes from one millisecond up to `gap`. */
  ghost predicate Looks(bus: nat -> Bus, clock: nat -> nat, gap: nat) {
    && Sound(bus(0))
    && forall i: nat :: Quietly(bus(i), bus(i + 1)) && clock(i) + 1 <= clock(i + 1) <= clock(i) + gap
  }

  lemma NextLook(bus: nat -> Bus, clock: nat -> nat, gap: nat, i: nat)
    requires Looks(bus, clock, gap) && Sound(bus(i))
    ensures Sound(bus(i + 1)) && Len(bus(i + 1)) <= Len(bus(i))
    ensures clock(i) + 1 <= clock(i + 1) <= clock(i) + gap
  {
    hide Sound, Len;
    assert Quietly(bus(i), bus(i + 1));
    QuietlyShrinks(bus(i), bus(i + 1));
  }

  /** What the waiting loop keeps: `since` is the last look with progress, and `drops` counts those looks. */
  ghost predicate Waited(highWater: nat, bus: nat -> Bus, clock: nat -> nat, gap: nat,
                         looks: nat, since: nat, drops: nat) {
    && since <= looks && Sound(bus(looks)) && Len(bus(looks)) == Len(bus(since))
    && (forall i :: 0 <= i < looks ==> Len(bus(i)) >= highWater)
    && (looks > since ==> 0 <= clock(looks) - clock(since) < PACING_STALL)
    && drops + Len(bus(looks)) <= Len(bus(0)) && drops <= SaturatingSub(Len(bus(0)), highWater) + 1
    && clock(since) - clock(0) <= Stalls(drops, gap)
  }

  /** A look with progress, or one that comes before the stall period is over, keeps that. */
  lemma WaitedLonger(highWater: nat, bus: nat -> Bus, clock: nat -> nat, gap: nat,
                     looks: nat, since: nat, drops: nat)
    requires Looks(bus, clock, gap) && Waited(highWater, bus, clock, gap, looks, since, drops)
    requires Len(bus(looks)) >= highWater
    ensures Sound(bus(looks + 1)) && Len(bus(looks + 1)) <= Len(bus(looks)) && clock(looks) < clock(looks + 1)
    ensures clock(looks + 1) - clock(0) <= Stalls(SaturatingSub(Len(bus(0)), highWater) + 1, gap)
    ensures if Len(bus(looks + 1)) < Len(bus(looks))
            then Waited(highWater, bus, clock, gap, looks + 1, looks + 1, drops + 1)
            else clock(looks + 1) - clock(since) < PACING_STALL ==>
                   Waited(highWater, bus, clock, gap, looks + 1, since, drops)
  {
    hide Sound, Len, Looks, Stalls;
    NextLook(bus, clock, gap, looks);
    StallsStep(drops, SaturatingSub(Len(bus(0)), highWater), gap);
    StallsStep(drops + 1, SaturatingSub(Len(bus(0)), highWater) + 1, gap);
  }

  /** `wait_for_room`. It gives up only after a whole stall period without progress, and ends within one stall
      period and one sleep for each message above the mark, and one more. */
  method WaitForRoom(highWater: nat, bus: nat -> Bus, clock: nat -> nat, ghost gap: nat)
    returns (room: bool, looks: nat)
    requires Looks(bus, clock, gap)
    ensures room <==> Len(bus(looks)) < highWater
    ensures forall i :: 0 <= i < looks ==> Len(bus(i)) >= highWater
    ensures !room ==> exists j :: 0 <= j < looks && Len(bus(j)) == Len(bus(looks))
                                  && clock(looks) - clock(j) >= PACING_STALL
    ensures clock(looks) - clock(0) <= Stalls(SaturatingSub(Len(bus(0)), highWater) + 1, gap)
  {
    hide Len, Sound, Quietly, Stalls;
    assert Looks(bus, clock, gap) ==> Sound(bus(0));
    hide Looks;
    var backlog := Len(bus(0));
    looks := 0;
    var since := 0;
    ghost var drops := 0;
    while backlog >= highWater
      invariant Waited(highWater, bus, clock, gap, looks, since, drops) && backlog == Len(bus(looks))
      invariant clock(looks) - clock(0) <= Stalls(SaturatingSub(Len(bus(0)), highWater) + 1, gap)
      decreases backlog, PACING_STALL - (clock(looks) - clock(since))
    {
      WaitedLonger(highWater, bus, clock, gap, looks, since, drops);
      looks := looks + 1;
      var now := Len(bus(looks));
      if now < backlog {
        drops := drops + 1;
        since := looks;
      } else if clock(looks) - clock(since) >= PACING_STALL {
        return false, looks;
      }
      backlog := now;
    }
    room := true;
  }

  // ----- Splitting log output ----------------------------------------------------

  /** `bytes.chunks(MAX_LOG_CHUNK_BYTES)` */
  function Chunks(bytes: Bytes): (cs: seq<Bytes>) {
    if bytes == [] then []
    else if |bytes| <= MAX_LOG_CHUNK_BYTES then [bytes]
    else [bytes[..MAX_LOG_CHUNK_BYTES]] + Chunks(bytes[MAX_LOG_CHUNK_BYTES..])
  }

  /** The payloads `publish` sends for a log chunk. */
  function Published(bytes: Bytes): (cs: seq<Bytes>) {
    if |bytes| > MAX_LOG_CHUNK_BYTES then Chunks(bytes) else [bytes]
  }

  function Joined(cs: seq<Bytes>): (bytes: Bytes) {
    if cs == [] then [] else cs[0] + Joined(cs[1..])
  }

  lemma {:induction false} ChunksCount(bytes: Bytes)
    ensures |Chunks(bytes)| == (|bytes| + (MAX_LOG_CHUNK_BYTES - 1)) / MAX_LOG_CHUNK_BYTES
  {
    if |bytes| <= MAX_LOG_CHUNK_BYTES {
    } else {
      ChunksCount(bytes[MAX_LOG_CHUNK_BYTES..]);
    }
  }

  lemma {:induction false} ChunksConserve(bytes: Bytes)
    ensures Joined(Chunks(bytes)) == bytes
    ensures forall i :: 0 <= i < |Chunks(bytes)| ==> 0 < |Chunks(bytes)[i]| <= MAX_LOG_CHUNK_BYTES
  {
    var cs := Chunks(bytes);
    if bytes == [] {
    } else if |bytes| <= MAX_LOG_CHUNK_BYTES {
      assert cs[1..] == [] && bytes + [] == bytes;
    } else {
      var rest := bytes[MAX_LOG_CHUNK_BYTES..];
      ChunksConserve(rest);
      assert cs[1..] == Chunks(rest);
      assert bytes == bytes[..MAX_LOG_CHUNK_BYTES] + rest;
    }
  }

  /** Splitting loses and reorders nothing, bounds every payload, and sends the counted messages. */
  lemma PublishConserves(bytes: Bytes)
    ensures Joined(Published(bytes)) == bytes
    ensures forall i :: 0 <= i < |Published(bytes)| ==> |Published(bytes)[i]| <= MAX_LOG_CHUNK_BYTES
    ensures |Published(bytes)| == Messages(LogChunk(|bytes|))
  {
    hide Chunks;
    ChunksConserve(bytes);
    ChunksCount(bytes);
    assert [bytes][1..] == [] && bytes + [] == bytes;
  }
}
