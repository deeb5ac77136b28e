/** A transfer budget pool: reservations over a fair, all-at-once semaphore. */
module Budget {
  import opened Common

  const UNIT: nat := 4096

  /** `Pool::new`: capacity in units, rounded down and capped at a u32. */
  function Capacity(bytes: nat): (units: nat)
    ensures units * UNIT <= bytes && units <= U32_MAX
    ensures units < U32_MAX ==> bytes < (units + 1) * UNIT
  {
    Min(bytes / UNIT, U32_MAX)
  }

  /** `bytes.div_ceil(UNIT)` */
  function Wanted(bytes: nat): (units: nat)
    ensures bytes <= units * UNIT < bytes + UNIT
  {
    (bytes + (UNIT - 1)) / UNIT
  }

  /** One request: its place in arrival order, the bytes asked for and the units they take. */
  datatype Request = Request(ticket: nat, bytes: nat) {
    function Units(): (n: nat) {
      Wanted(bytes)
    }
  }

  /** The semaphore of one pool: free units, granted reservations, and the queue in arrival order. */
  datatype Pool = Pool(configured: nat, available: nat, held: seq<Request>, queue: seq<Request>, tickets: nat)

  function NewPool(bytes: nat): (p: Pool) {
    Pool(bytes, Capacity(bytes), [], [], 0)
  }

  datatype Step = Reserve(bytes: nat) | Drop(i: nat) | Cancel(i: nat)

  function HeldUnits(held: seq<Request>): (n: nat) {
    if held == [] then 0 else HeldUnits(held[..|held| - 1]) + held[|held| - 1].Units()
  }

  function HeldBytes(held: seq<Request>): (n: nat) {
    if held == [] then 0 else HeldBytes(held[..|held| - 1]) + held[|held| - 1].bytes
  }

  function Without<T(==)>(s: seq<T>, i: nat): (r: seq<T>)
    requires i < |s|
    ensures |r| == |s| - 1 && forall x :: x in r ==> x in s
  {
    s[..i] + s[i + 1..]
  }

  /** The pool after the first waiting request is granted. */
  function GrantOne(p: Pool): (r: Pool)
    requires p.queue != [] && p.queue[0].Units() <= p.available
  {
    p.(available := p.available - p.queue[0].Units(), held := p.held + [p.queue[0]], queue := p.queue[1..])
  }

  /** Grants waiting requests from the front, each all at once, while the first one fits. */
  function GrantFront(p: Pool): (r: Pool)
    decreases |p.queue|
  {
    if p.queue != [] && p.queue[0].Units() <= p.available then
      GrantFront(GrantOne(p))
    else p
  }

  /** `reserve`, dropping a reservation, or cancelling a waiting request; `None` when there is no such one. */
  function Next(p: Pool, step: Step): (r: Option<Pool>) {
    match step
    case Reserve(bytes) =>
      if Wanted(bytes) > Capacity(p.configured) then Some(p)
      else if Wanted(bytes) == 0 then Some(p.(held := p.held + [Request(p.tickets, bytes)], tickets := p.tickets + 1))
      else Some(GrantFront(p.(queue := p.queue + [Request(p.tickets, bytes)], tickets := p.tickets + 1)))
    case Drop(i) =>
      if i < |p.held| then
        Some(GrantFront(p.(available := p.available + p.held[i].Units(), held := Without(p.held, i))))
      else None
    case Cancel(i) =>
      if i < |p.queue| then Some(GrantFront(p.(queue := Without(p.queue, i)))) else None
  }

  function Run(bytes: nat, steps: seq<Step>): (r: Option<Pool>) {
    if steps == [] then Some(NewPool(bytes))
    else
      match Run(bytes, steps[..|steps| - 1])
      case None => None
      case Some(p) => Next(p, steps[|steps| - 1])
  }

  // ----- Conservation ------------------------------------------------------------

  lemma {:induction false} HeldWithout(held: seq<Request>, i: nat)
    requires i < |held|
    ensures HeldUnits(held) == HeldUnits(Without(held, i)) + held[i].Units()
  {
    var n := |held| - 1;
    if i < n {
      HeldWithout(held[..n], i);
      assert Without(held, i)[..n - 1] == Without(held[..n], i);
    } else {
      assert Without(held, i) == held[..n];
    }
  }

  lemma {:induction false} BytesWithinUnits(held: seq<Request>)
    ensures HeldBytes(held) <= HeldUnits(held) * UNIT
  {
    if held == [] {
    } else {
      BytesWithinUnits(held[..|held| - 1]);
    }
  }

  /** Free and held units add up to the capacity, and every waiting request fits an idle pool. */
  ghost predicate Balanced(p: Pool) {
    && p.available + HeldUnits(p.held) == Capacity(p.configured)
    && forall q :: q in p.queue ==> 0 < q.Units() <= Capacity(p.configured)
  }

  /** No waiting request could be granted. */
  predicate Settled(p: Pool) {
    p.queue != [] ==> p.queue[0].Units() > p.available
  }

  /** Arrival order: every non-empty reservation held came before every waiting request, and the queue is in order. */
  ghost predicate InOrder(p: Pool) {
    && (forall i, j :: 0 <= i < j < |p.queue| ==> p.queue[i].ticket < p.queue[j].ticket)
    && (forall h, q :: h in p.held && q in p.queue && h.Units() > 0 ==> h.ticket < q.ticket)
    && (forall q :: q in p.queue ==> q.ticket < p.tickets)
    && (forall h :: h in p.held ==> h.ticket < p.tickets)
  }

  ghost predicate Inv(p: Pool) {
    Balanced(p) && InOrder(p) && Settled(p)
  }

  lemma GrantOneBalanced(p: Pool)
    requires Balanced(p) && p.queue != [] && p.queue[0].Units() <= p.available
    ensures Balanced(GrantOne(p))
  {
    hide Capacity, Wanted;
    var held := p.held + [p.queue[0]];
    assert held[..|p.held|] == p.held;
  }

  lemma GrantOneInOrder(p: Pool)
    requires InOrder(p) && p.queue != [] && p.queue[0].Units() <= p.available
    ensures InOrder(GrantOne(p))
  {
    hide Capacity, Wanted, HeldUnits;
    var first, rest := p.queue[0], p.queue[1..];
    forall q | q in rest ensures first.ticket < q.ticket && q in p.queue {
      var j :| 0 <= j < |rest| && rest[j] == q;
      assert p.queue[j + 1] == q;
    }
    var r := GrantOne(p);
    forall h, q | h in r.held && q in r.queue && h.Units() > 0 ensures h.ticket < q.ticket {
      assert h in p.held || h == first;
    }
    assert first in p.queue;
  }

  lemma {:induction false} GrantFrontInv(p: Pool)
    requires Balanced(p) && InOrder(p)
    ensures Inv(GrantFront(p)) && GrantFront(p).configured == p.configured
    decreases |p.queue|
  {
    hide Capacity, Wanted, Balanced, InOrder;
    if p.queue != [] && p.queue[0].Units() <= p.available {
      GrantOneBalanced(p);
      GrantOneInOrder(p);
      GrantFrontInv(GrantOne(p));
    }
  }

  lemma ReserveInv(p: Pool, bytes: nat)
    requires Inv(p)
    ensures Inv(Next(p, Reserve(bytes)).value) && Next(p, Reserve(bytes)).value.configured == p.configured
  {
    hide Capacity, Wanted, GrantFront, Balanced, InOrder;
    var r := Request(p.tickets, bytes);
    if Wanted(bytes) == 0 <= Capacity(p.configured) {
      AddHeld(p, r);
    } else if 0 < Wanted(bytes) <= Capacity(p.configured) {
      AddQueued(p, r);
      GrantFrontInv(p.(queue := p.queue + [r], tickets := p.tickets + 1));
    }
  }

  lemma AddHeld(p: Pool, r: Request)
    requires Balanced(p) && InOrder(p) && r.Units() == 0 && r.ticket == p.tickets
    ensures var q := p.(held := p.held + [r], tickets := p.tickets + 1); Balanced(q) && InOrder(q)
  {
    hide Capacity, Wanted;
    var held := p.held + [r];
    assert held[..|p.held|] == p.held;
  }

  lemma AddQueued(p: Pool, r: Request)
    requires Balanced(p) && InOrder(p) && 0 < r.Units() <= Capacity(p.configured) && r.ticket == p.tickets
    ensures var q := p.(queue := p.queue + [r], tickets := p.tickets + 1); Balanced(q) && InOrder(q)
  {
    hide Capacity, Wanted, HeldUnits;
  }

  lemma DropInv(p: Pool, i: nat)
    requires Inv(p) && i < |p.held|
    ensures Inv(Next(p, Drop(i)).value) && Next(p, Drop(i)).value.configured == p.configured
  {
    hide Capacity, Wanted, GrantFront, InOrder, Without;
    HeldWithout(p.held, i);
    var q := p.(available := p.available + p.held[i].Units(), held := Without(p.held, i));
    SubsetInOrder(p, q);
    GrantFrontInv(q);
  }

  /** Fewer reservations with the same requests waiting are still in order. */
  lemma SubsetInOrder(p: Pool, q: Pool)
    requires InOrder(p) && q.tickets == p.tickets && q.queue == p.queue
    requires forall h :: h in q.held ==> h in p.held
    ensures InOrder(q)
  {
    hide Capacity, Wanted, HeldUnits;
  }

  lemma CancelInv(p: Pool, i: nat)
    requires Inv(p) && i < |p.queue|
    ensures Inv(Next(p, Cancel(i)).value) && Next(p, Cancel(i)).value.configured == p.configured
  {
    hide Capacity, Wanted, GrantFront, HeldUnits, InOrder, Without;
    RemainInOrder(p, i);
    GrantFrontInv(p.(queue := Without(p.queue, i)));
  }

  lemma RemainInOrder(p: Pool, i: nat)
    requires InOrder(p) && i < |p.queue|
    ensures InOrder(p.(queue := Without(p.queue, i)))
  {
    hide Capacity, Wanted;
    var rest := Without(p.queue, i);
    forall j, k | 0 <= j < k < |rest| ensures rest[j].ticket < rest[k].ticket {
      assert rest[j] == p.queue[if j < i then j else j + 1];
      assert rest[k] == p.queue[if k < i then k else k + 1];
    }
  }

  lemma NextInv(p: Pool, step: Step)
    requires Inv(p) && Next(p, step).Some?
    ensures Inv(Next(p, step).value) && Next(p, step).value.configured == p.configured
  {
    match step
    case Reserve(bytes) => ReserveInv(p, bytes);
    case Drop(i) => DropInv(p, i);
    case Cancel(i) => CancelInv(p, i);
  }

  lemma {:induction false} RunInv(bytes: nat, steps: seq<Step>)
    requires Run(bytes, steps).Some?
    ensures Inv(Run(bytes, steps).value) && Run(bytes, steps).value.configured == bytes
  {
    if steps == [] {
    } else {
      RunInv(bytes, steps[..|steps| - 1]);
      NextInv(Run(bytes, steps[..|steps| - 1]).value, steps[|steps| - 1]);
    }
  }

  // ----- What every run guarantees -----------------------------------------------

  /** Live reservations never ask for more than the configured bytes, and no unit is lost or made. */
  lemma NeverOverBudget(bytes: nat, steps: seq<Step>)
    requires Run(bytes, steps).Some?
    ensures var p := Run(bytes, steps).value;
            HeldBytes(p.held) <= bytes && p.available + HeldUnits(p.held) == Capacity(bytes)
  {
    RunInv(bytes, steps);
    BytesWithinUnits(Run(bytes, steps).value.held);
  }

  /** No request overtakes an earlier one: whatever holds units came before whatever waits. */
  lemma NoOvertaking(bytes: nat, steps: seq<Step>, i: nat, j: nat)
    requires Run(bytes, steps).Some?
    ensures var p := Run(bytes, steps).value;
            i < |p.held| && j < |p.queue| && p.held[i].Units() > 0 ==> p.held[i].ticket < p.queue[j].ticket
  {
    RunInv(bytes, steps);
  }

  /** A waiting request always waits for an earlier one that holds units. */
  lemma WaitsOnlyForEarlier(bytes: nat, steps: seq<Step>, j: nat)
    requires Run(bytes, steps).Some? && j < |Run(bytes, steps).value.queue|
    ensures var p := Run(bytes, steps).value;
            exists i :: 0 <= i < |p.held| && p.held[i].Units() > 0 && p.held[i].ticket < p.queue[j].ticket
  {
    RunInv(bytes, steps);
    var p := Run(bytes, steps).value;
    assert HeldUnits(p.held) > 0;
    var i := SomeHeld(p.held);
    assert p.held[i].ticket < p.queue[j].ticket;
  }

  lemma {:induction false} SomeHeld(held: seq<Request>) returns (i: nat)
    requires HeldUnits(held) > 0
    ensures i < |held| && held[i].Units() > 0
  {
    var n := |held| - 1;
    if held[n].Units() > 0 {
      i := n;
    } else {
      i := SomeHeld(held[..n]);
    }
  }

  predicate Waits(p: Pool, r: Request) {
    r in p.queue
  }

  predicate Holds(p: Pool, r: Request) {
    r in p.held
  }

  /** Granting from the front moves requests from the queue to the holders and loses none. */
  lemma {:induction false} GrantFrontKeeps(p: Pool, r: Request)
    requires Waits(p, r) || Holds(p, r)
    ensures Waits(GrantFront(p), r) || Holds(GrantFront(p), r)
    ensures Holds(p, r) ==> Holds(GrantFront(p), r)
    decreases |p.queue|
  {
    hide Capacity, Wanted;
    if p.queue != [] && p.queue[0].Units() <= p.available {
      assert p.queue == [p.queue[0]] + p.queue[1..];
      GrantFrontKeeps(GrantOne(p), r);
    }
  }

  /** The step cancels `r` while it waits, or drops it once it holds. */
  predicate Ends(p: Pool, step: Step, r: Request) {
    match step
    case Reserve(_) => false
    case Drop(i) => i < |p.held| && p.held[i] == r
    case Cancel(i) => i < |p.queue| && p.queue[i] == r
  }

  lemma WithoutKeeps<T>(s: seq<T>, i: nat, x: T)
    requires i < |s| && x in s && s[i] != x
    ensures x in Without(s, i)
  {
    var j :| 0 <= j < |s| && s[j] == x;
    assert Without(s, i)[if j < i then j else j - 1] == x;
  }

  /** A request that waits or holds goes on waiting or holding until it is cancelled or dropped. */
  lemma NextKeeps(p: Pool, step: Step, r: Request)
    requires (Waits(p, r) || Holds(p, r)) && Next(p, step).Some? && !Ends(p, step, r)
    ensures Waits(Next(p, step).value, r) || Holds(Next(p, step).value, r)
  {
    hide Capacity, Wanted, GrantFront, Without;
    match step
    case Reserve(bytes) =>
      if 0 < Wanted(bytes) <= Capacity(p.configured) {
        GrantFrontKeeps(p.(queue := p.queue + [Request(p.tickets, bytes)], tickets := p.tickets + 1), r);
      }
    case Drop(i) =>
      if Holds(p, r) {
        WithoutKeeps(p.held, i, r);
      }
      GrantFrontKeeps(p.(available := p.available + p.held[i].Units(), held := Without(p.held, i)), r);
    case Cancel(i) =>
      if Waits(p, r) {
        WithoutKeeps(p.queue, i, r);
      }
      GrantFrontKeeps(p.(queue := Without(p.queue, i)), r);
  }

  /** A request that is not refused waits or holds at once. */
  lemma Admitted(p: Pool, bytes: nat)
    requires bytes <= Capacity(p.configured) * UNIT
    ensures var r, next := Request(p.tickets, bytes), Next(p, Reserve(bytes)).value; Waits(next, r) || Holds(next, r)
  {
    assert Wanted(bytes) <= Capacity(p.configured);
    hide Capacity, Wanted, GrantFront;
    var r := Request(p.tickets, bytes);
    if Wanted(bytes) > 0 {
      GrantFrontKeeps(p.(queue := p.queue + [r], tickets := p.tickets + 1), r);
    }
  }

  /** From step `n` on `r` is neither cancelled nor dropped. */
  ghost predicate Lasts(bytes: nat, steps: seq<Step>, n: nat, r: Request) {
    forall j :: n <= j < |steps| && Run(bytes, steps[..j]).Some? ==> !Ends(Run(bytes, steps[..j]).value, steps[j], r)
  }

  /** Once nothing that came before it holds units, a request that was not cancelled has been granted. */
  lemma {:induction false} GrantedOnceFirst(bytes: nat, steps: seq<Step>, n: nat, r: Request)
    requires n <= |steps| && Run(bytes, steps).Some? && Run(bytes, steps[..n]).Some? && Lasts(bytes, steps, n, r)
    requires Waits(Run(bytes, steps[..n]).value, r) || Holds(Run(bytes, steps[..n]).value, r)
    ensures var p := Run(bytes, steps).value;
            && (Waits(p, r) || Holds(p, r))
            && ((forall h :: h in p.held && h.Units() > 0 ==> h.ticket >= r.ticket) ==> Holds(p, r))
    decreases |steps|
  {
    hide Next, Ends, Capacity, Wanted;
    if n == |steps| {
      assert steps[..n] == steps;
    } else {
      var front := steps[..|steps| - 1];
      assert front[..n] == steps[..n];
      forall j | n <= j < |front| && Run(bytes, front[..j]).Some?
        ensures !Ends(Run(bytes, front[..j]).value, front[j], r)
      {
        assert front[..j] == steps[..j];
      }
      GrantedOnceFirst(bytes, front, n, r);
      NextKeeps(Run(bytes, front).value, steps[|steps| - 1], r);
    }
    if Waits(Run(bytes, steps).value, r) {
      WaitingHasEarlier(bytes, steps, r);
    }
  }

  lemma WaitingHasEarlier(bytes: nat, steps: seq<Step>, r: Request)
    requires Run(bytes, steps).Some? && Waits(Run(bytes, steps).value, r)
    ensures exists h :: h in Run(bytes, steps).value.held && h.Units() > 0 && h.ticket < r.ticket
  {
    hide Run, Capacity, Wanted;
    var p := Run(bytes, steps).value;
    var j :| 0 <= j < |p.queue| && p.queue[j] == r;
    WaitsOnlyForEarlier(bytes, steps, j);
    var i :| 0 <= i < |p.held| && p.held[i].Units() > 0 && p.held[i].ticket < p.queue[j].ticket;
    assert p.held[i] in p.held;
  }

  // ----- Nothing is lost and nothing is kept -------------------------------------

  /** Every request in the pool, holding or waiting. */
  function Bag(p: Pool): (rs: multiset<Request>) {
    multiset(p.held) + multiset(p.queue)
  }

  lemma {:induction false} GrantFrontBag(p: Pool)
    ensures Bag(GrantFront(p)) == Bag(p) && GrantFront(p).tickets == p.tickets
    decreases |p.queue|
  {
    hide Capacity, Wanted;
    if p.queue != [] && p.queue[0].Units() <= p.available {
      assert p.queue == [p.queue[0]] + p.queue[1..];
      GrantFrontBag(GrantOne(p));
    }
  }

  lemma WithoutBag<T>(s: seq<T>, i: nat)
    requires i < |s|
    ensures multiset(s) == multiset(Without(s, i)) + multiset{s[i]}
  {
    assert s == s[..i] + [s[i]] + s[i + 1..];
  }

  /** Each step changes the requests of the pool by exactly its own: an admitted one comes, a dropped or a
      cancelled one goes, and a refused one is never there. */
  lemma NextBag(p: Pool, step: Step)
    requires Next(p, step).Some?
    ensures var q := Next(p, step).value;
            match step
            case Reserve(bytes) =>
              if bytes > Capacity(p.configured) * UNIT then q == p
              else Bag(q) == Bag(p) + multiset{Request(p.tickets, bytes)} && q.tickets == p.tickets + 1
            case Drop(i) => i < |p.held| && Bag(p) == Bag(q) + multiset{p.held[i]} && q.tickets == p.tickets
            case Cancel(i) => i < |p.queue| && Bag(p) == Bag(q) + multiset{p.queue[i]} && q.tickets == p.tickets
  {
    hide Next, Bag, Capacity;
    match step
    case Reserve(bytes) => ReserveBag(p, bytes);
    case Drop(i) => DropBag(p, i);
    case Cancel(i) => CancelBag(p, i);
  }

  lemma ReserveBag(p: Pool, bytes: nat)
    ensures var q := Next(p, Reserve(bytes)).value;
            if bytes > Capacity(p.configured) * UNIT then q == p
            else Bag(q) == Bag(p) + multiset{Request(p.tickets, bytes)} && q.tickets == p.tickets + 1
  {
    assert Wanted(bytes) > Capacity(p.configured) <==> bytes > Capacity(p.configured) * UNIT;
    hide Capacity, Wanted, GrantFront;
    GrantFrontBag(p.(queue := p.queue + [Request(p.tickets, bytes)], tickets := p.tickets + 1));
  }

  lemma DropBag(p: Pool, i: nat)
    requires Next(p, Drop(i)).Some?
    ensures var q := Next(p, Drop(i)).value;
            i < |p.held| && Bag(p) == Bag(q) + multiset{p.held[i]} && q.tickets == p.tickets
  {
    hide Capacity, Wanted, GrantFront, Without;
    WithoutBag(p.held, i);
    GrantFrontBag(p.(available := p.available + p.held[i].Units(), held := Without(p.held, i)));
  }

  lemma CancelBag(p: Pool, i: nat)
    requires Next(p, Cancel(i)).Some?
    ensures var q := Next(p, Cancel(i)).value;
            i < |p.queue| && Bag(p) == Bag(q) + multiset{p.queue[i]} && q.tickets == p.tickets
  {
    hide Capacity, Wanted, GrantFront, Without;
    WithoutBag(p.queue, i);
    GrantFrontBag(p.(queue := Without(p.queue, i)));
  }

  /** Every request is there once, under a ticket of its own. */
  ghost predicate Once(p: Pool) {
    && (forall r :: r in Bag(p) ==> Bag(p)[r] == 1 && r.ticket < p.tickets)
    && (forall r, s :: r in Bag(p) && s in Bag(p) && r != s ==> r.ticket != s.ticket)
  }

  lemma NextOnce(p: Pool, step: Step)
    requires Once(p) && Next(p, step).Some?
    ensures Once(Next(p, step).value)
  {
    hide Next, Bag, Capacity;
    NextBag(p, step);
    var q := Next(p, step).value;
    match step
    case Reserve(bytes) =>
      assert forall r :: r in Bag(q) ==> r in Bag(p) || r.ticket == p.tickets;
    case Drop(i) =>
      assert forall r :: r in Bag(q) ==> r in Bag(p);
    case Cancel(i) =>
      assert forall r :: r in Bag(q) ==> r in Bag(p);
  }

  lemma {:induction false} RunOnce(bytes: nat, steps: seq<Step>)
    requires Run(bytes, steps).Some?
    ensures Once(Run(bytes, steps).value)
  {
    hide Next;
    if steps == [] {
    } else {
      RunOnce(bytes, steps[..|steps| - 1]);
      NextOnce(Run(bytes, steps[..|steps| - 1]).value, steps[|steps| - 1]);
    }
  }

  /** After any run, a dropped reservation or a cancelled request is gone for good, and no other request is. */
  lemma EndedIsGone(bytes: nat, steps: seq<Step>, step: Step, r: Request)
    requires Run(bytes, steps).Some? && Next(Run(bytes, steps).value, step).Some?
    requires Ends(Run(bytes, steps).value, step, r)
    ensures var p, q := Run(bytes, steps).value, Next(Run(bytes, steps).value, step).value;
            !Waits(q, r) && !Holds(q, r) && (forall s :: s in Bag(p) && s != r ==> Waits(q, s) || Holds(q, s))
  {
    hide Run, Next, Capacity;
    var p := Run(bytes, steps).value;
    RunOnce(bytes, steps);
    NextBag(p, step);
    var q := Next(p, step).value;
    assert r in Bag(p) && Bag(p)[r] == 1;
    assert Bag(q)[r] == 0;
    forall s | s in Bag(p) && s != r ensures Waits(q, s) || Holds(q, s) {
      assert Bag(q)[s] == Bag(p)[s];
    }
  }

  /** When no reservation takes a unit, everything is free and nothing waits. */
  lemma IdlePool(bytes: nat, steps: seq<Step>)
    requires Run(bytes, steps).Some? && forall h :: h in Run(bytes, steps).value.held ==> h.Units() == 0
    ensures Run(bytes, steps).value.available == Capacity(bytes) && Run(bytes, steps).value.queue == []
  {
    hide Run, Capacity, Wanted;
    RunInv(bytes, steps);
    var p := Run(bytes, steps).value;
    NoUnits(p.held);
  }

  lemma {:induction false} NoUnits(held: seq<Request>)
    requires forall h :: h in held ==> h.Units() == 0
    ensures HeldUnits(held) == 0
  {
    hide Wanted;
    if held == [] {
    } else {
      NoUnits(held[..|held| - 1]);
    }
  }

  /** The pool after its first reservation is dropped `n` times, as far as there is one. */
  function DropFirst(p: Pool, n: nat): (q: Pool)
    decreases n
  {
    if n == 0 || p.held == [] then p else DropFirst(Next(p, Drop(0)).value, n - 1)
  }

  /** Dropping reservations one after the other grants everything that waits and ends with an idle pool. */
  lemma {:induction false} Drains(p: Pool)
    requires Inv(p)
    ensures var q := DropFirst(p, |p.held| + |p.queue|);
            q.held == [] && q.queue == [] && q.available == Capacity(p.configured)
    decreases |p.held| + |p.queue|
  {
    hide Capacity, Wanted, Next, GrantFront;
    if p.held == [] {
    } else {
      var q := Dropped(p);
      assert |Bag(p)| == |p.held| + |p.queue| && |Bag(q)| == |q.held| + |q.queue|;
      Drains(q);
    }
  }

  lemma Dropped(p: Pool) returns (q: Pool)
    requires Inv(p) && p.held != []
    ensures Next(p, Drop(0)) == Some(q) && Inv(q) && q.configured == p.configured
    ensures Bag(p) == Bag(q) + multiset{p.held[0]}
  {
    hide Capacity, Wanted, GrantFront;
    q := Next(p, Drop(0)).value;
    DropInv(p, 0);
    NextBag(p, Drop(0));
  }

  /** A request leaves the pool as it was, refused, exactly when it exceeds the whole capacity, however
      much of that is in use. */
  lemma RefusedIff(p: Pool, bytes: nat)
    ensures Next(p, Reserve(bytes)) == Some(p) <==> bytes > Capacity(p.configured) * UNIT
  {
    assert Wanted(bytes) > Capacity(p.configured) <==> bytes > Capacity(p.configured) * UNIT;
    hide Capacity, Wanted;
    var q := p.(queue := p.queue + [Request(p.tickets, bytes)], tickets := p.tickets + 1);
    GrantFrontBag(q);
  }
}
