/**
 * The buffer budget of internal/proxy/mitm.go: requests that hold a work slot wait for, hold and return a
 * reservation that covers every buffer they may allocate. Requests run interleaved: each step of this model is
 * what one of them does while it holds the lock, or between two such moments.
 */
module Budget {
  import opened Bytes
  import BoundedRead

  const MAX_INT64: int := TWO63 - 1
  const MAX_PROXY_BODY: int := 0x40_0000

  // ---- limits ----

  /** bufferReservation */
  function Reservation(limit: int): Option<int> {
    if limit < 0 || limit > (MAX_INT64 - 4) / 4 then None else Some(4 * (limit + 1))
  }

  /** The guard is exact: a limit is refused only when its reservation would not be a 64-bit number. */
  lemma ReservationIsExact(limit: int)
    ensures Reservation(limit).Some? <==> 0 <= limit && 4 * (limit + 1) <= 0x7fff_ffff_ffff_ffff
    ensures Reservation(limit).Some? ==> Reservation(limit).value == 4 * (limit + 1)
  {
  }

  datatype Limits = Limits(connections: int, body: int, buffered: int)

  /** The numeric part of Config.Validate. */
  predicate ValidLimits(l: Limits) {
    && 1 <= l.connections <= 1024
    && 1024 <= l.body <= 0x400_0000
    && 4 * (l.body + 1) <= l.buffered <= 0x1000_0000
  }

  /** What the three conditions amount to: the largest body limit that passes its own check never passes all. */
  lemma UsableBodyLimits(connections: int, body: int)
    ensures (exists buffered :: ValidLimits(Limits(connections, body, buffered)))
            <==> 1 <= connections <= 1024 && 1024 <= body < 0x400_0000
  {
    if 1 <= connections <= 1024 && 1024 <= body < 0x400_0000 {
      assert ValidLimits(Limits(connections, body, 0x1000_0000));
    }
  }

  /** An int64 product. */
  function Wrap64(x: int): int {
    (x + TWO63) % TWO64 - TWO63
  }

  lemma WrapSmall(x: int)
    requires -TWO63 <= x < TWO63
    ensures Wrap64(x) == x
  {
  }

  // ---- the budget ----

  datatype Pass = Taken | Expired | Waits

  class ByteBudget {
    const capacity: int
    var available: int

    constructor (n: int)
      ensures capacity == n && available == n
    {
      capacity, available := n, n;
    }

    /** The loop of acquire from one waking to the next sleep; `expired` says that the deadline has passed. */
    method Try(n: int, expired: bool) returns (pass: Pass)
      modifies `available
      ensures pass.Taken? <==> n <= old(available)
      ensures pass.Expired? ==> expired
      ensures pass.Waits? ==> !expired
      ensures available == if pass.Taken? then old(available) - n else old(available)
    {
      if available < n {
        return if expired then Expired else Waits;
      }
      available := available - n;
      pass := Taken;
    }

    method Release(n: int)
      modifies `available
      ensures n <= 0 ==> available == old(available)
      // with what is out accounted for, the clamp changes nothing
      ensures 0 < n <= capacity - old(available) ==> available == old(available) + n
      ensures n > 0 ==> available <= capacity
    {
      if n <= 0 { return; }
      available := available + n;
      if available > capacity { available := capacity; }
    }
  }

  // ---- requests ----

  /** Where a request is in `handle`, and what it holds there. */
  datatype Request =
    | Arrived
    | Slotted
    | Waiting(need: int)
    | Admitted(need: int, body: nat, decoded: nat, encoded: nat)
    | Answered

  predicate HasSlot(q: Request) {
    q.Slotted? || q.Waiting? || q.Admitted?
  }

  function Need(q: Request): int {
    if q.Admitted? then q.need else 0
  }

  function Buffered(q: Request): nat {
    if q.Admitted? then q.body + q.decoded + q.encoded else 0
  }

  function Slots(qs: seq<Request>): nat {
    if qs == [] then 0 else (if HasSlot(qs[0]) then 1 else 0) + Slots(qs[1..])
  }

  function Reserved(qs: seq<Request>): int {
    if qs == [] then 0 else Need(qs[0]) + Reserved(qs[1..])
  }

  function AllBuffers(qs: seq<Request>): nat {
    if qs == [] then 0 else Buffered(qs[0]) + AllBuffers(qs[1..])
  }

  /** One request moves, the others stay. */
  lemma {:induction false} Moves(qs: seq<Request>, i: nat, q: Request)
    requires i < |qs|
    ensures Slots(qs[i := q]) == Slots(qs) - (if HasSlot(qs[i]) then 1 else 0) + (if HasSlot(q) then 1 else 0)
    ensures Reserved(qs[i := q]) == Reserved(qs) - Need(qs[i]) + Need(q)
  {
    if i == 0 {
      assert qs[i := q][1..] == qs[1..];
    } else {
      assert qs[i := q][1..] == qs[1..][i - 1 := q];
      Moves(qs[1..], i - 1, q);
    }
  }

  lemma {:induction false} Arrives(qs: seq<Request>)
    ensures Slots(qs + [Arrived]) == Slots(qs) && Reserved(qs + [Arrived]) == Reserved(qs)
  {
    if qs == [] {
      assert [Arrived][1..] == [] && qs + [Arrived] == [Arrived];
    } else {
      assert (qs + [Arrived])[1..] == qs[1..] + [Arrived];
      Arrives(qs[1..]);
    }
  }

  /** A body and a decoded body with their probe bytes, and one encoded body. */
  predicate WithinBuffers(q: Request, limit: int)
    requires q.Admitted?
  {
    && q.body <= BoundedRead.ReadBuffer(limit) && q.decoded <= BoundedRead.ReadBuffer(limit)
    && q.encoded <= BoundedRead.GzipBuffer(limit)
  }

  /** A request keeps to what it reserved. */
  predicate Honest(q: Request, limit: int) {
    && (q.Waiting? ==> q.need == 4 * (limit + 1))
    && (q.Admitted? ==> q.need == 4 * (limit + 1) && WithinBuffers(q, limit))
  }

  lemma {:induction false} BuffersWithinReserved(qs: seq<Request>, limit: int)
    requires 0 <= limit && forall q | q in qs :: Honest(q, limit)
    ensures AllBuffers(qs) <= Reserved(qs)
    ensures 0 <= Reserved(qs)
    ensures forall q | q in qs :: Need(q) <= Reserved(qs)
  {
    if qs != [] {
      assert Honest(qs[0], limit);
      BuffersWithinReserved(qs[1..], limit);
      assert forall q | q in qs :: q == qs[0] || q in qs[1..];
    }
  }

  lemma {:induction false} NothingReserved(qs: seq<Request>)
    requires forall q | q in qs :: !q.Admitted?
    ensures Reserved(qs) == 0
  {
    if qs != [] {
      assert qs[0] in qs;
      NothingReserved(qs[1..]);
    }
  }

  class DataPlane {
    var bodyLimit: int
    var workCap: int
    var connCap: int
    var working: nat
    var budget: ByteBudget
    var requests: seq<Request>

    /** Every slot and every byte of the budget is accounted for. */
    ghost predicate Valid()
      reads this, budget
    {
      && 0 < bodyLimit
      && working == Slots(requests) && working <= workCap
      && 0 <= budget.available && budget.available + Reserved(requests) == budget.capacity
      && (forall q | q in requests :: Honest(q, bodyLimit) && (q.Waiting? ==> q.need <= budget.capacity))
    }

    /** The limits let every request in, sooner or later. */
    ghost predicate Fits()
      reads this, budget
    {
      Reservation(bodyLimit).Some? && Reservation(bodyLimit).value <= budget.capacity
    }

    constructor ()
      ensures Valid() && Fits() && fresh(budget) && requests == []
      ensures bodyLimit == 4194304 && workCap == 32 && connCap == 32 && budget.capacity == 536870912
    {
      bodyLimit, workCap, connCap, working, requests := MAX_PROXY_BODY, 32, 32, 0, [];
      budget := new ByteBudget(32 * MAX_PROXY_BODY * 4);
    }

    /**
     * Called while nothing is served. A configuration that was accepted gets a budget in which every request
     * fits and at least four, and never more work slots than bodies fit into the budget.
     */
    method SetLimits(l: Limits)
      requires Valid() && requests == []
      modifies this
      ensures Valid() && requests == [] && (budget == old(budget) || fresh(budget))
      ensures ValidLimits(l) ==> Fits() && budget.capacity == l.buffered
      ensures ValidLimits(l) ==> connCap == l.connections && bodyLimit == l.body
      ensures ValidLimits(l) ==> 1 <= workCap <= l.connections && workCap * l.body <= l.buffered
      // the slots are cut only when the bodies would not fit, and then by no more than needed
      ensures ValidLimits(l) ==> workCap == l.connections || l.buffered < (workCap + 1) * l.body
    {
      if l.connections > 0 {
        workCap, connCap := l.connections, l.connections;
      }
      if l.body > 0 {
        bodyLimit := l.body;
      }
      if l.buffered > 0 && bodyLimit > 0 {
        if ValidLimits(l) { ProductFits(l.connections, l.body); }
        if Wrap64(workCap * bodyLimit) > l.buffered {
          var slots := l.buffered / bodyLimit;
          if slots < 1 { slots := 1; }
          if ValidLimits(l) { QuotientFits(l.connections, l.body, l.buffered); }
          workCap := slots;
        }
      }
      if l.buffered > 0 {
        budget := new ByteBudget(l.buffered);
      }
    }

    // ---- the steps of handle ----

    method Arrive()
      requires Valid()
      modifies `requests, `working
      ensures Valid() && requests == old(requests) + [Arrived]
    {
      Arrives(requests);
      requests := requests + [Arrived];
    }

    method Move(i: nat, q: Request)
      requires i < |requests|
      modifies `requests
      ensures requests == old(requests)[i := q]
      ensures Slots(requests) ==
        old(Slots(requests)) - (if HasSlot(old(requests)[i]) then 1 else 0) + (if HasSlot(q) then 1 else 0)
      ensures Reserved(requests) == old(Reserved(requests)) - Need(old(requests)[i]) + Need(q)
      ensures forall p | p in requests :: p == q || p in old(requests)
    {
      Moves(requests, i, q);
      requests := requests[i := q];
    }

    /** A full house answers at once. */
    method TakeSlot(i: nat)
      requires Valid() && i < |requests| && requests[i].Arrived?
      modifies `requests, `working
      ensures Valid()
      ensures requests == old(requests)[i := if old(working) < workCap then Slotted else Answered]
    {
      if working < workCap {
        working := working + 1;
        Move(i, Slotted);
      } else {
        Move(i, Answered);
      }
    }

    /** What becomes of a request for `need` bytes at one look at the budget. */
    static ghost function Look(need: int, available: int, expired: bool): Request {
      if need <= available then Admitted(need, 0, 0, 0) else if expired then Answered else Waiting(need)
    }

    /** A request that could never fit is answered, not kept waiting. */
    static ghost function FirstLook(limit: int, capacity: int, available: int, expired: bool): Request {
      if Reservation(limit).Some? && Reservation(limit).value <= capacity
      then Look(Reservation(limit).value, available, expired)
      else Answered
    }

    /**
     * What a request gets at its first look: refused when its reservation is no number or more than there ever is,
     * its bytes when they are there, else an answer past the deadline and a place to wait before it.
     */
    static lemma LooksMean(limit: int, capacity: int, available: int, expired: bool)
      requires capacity <= 0x7fff_ffff_ffff_ffff
      ensures var need := 4 * (limit + 1);
        FirstLook(limit, capacity, available, expired) ==
          if limit < 0 || need > capacity then Answered
          else if need <= available then Admitted(need, 0, 0, 0)
          else if expired then Answered
          else Waiting(need)
    {
    }

    method GiveSlotBack(i: nat)
      requires i < |requests| && HasSlot(requests[i]) && working == Slots(requests)
      modifies `requests, `working
      ensures requests == old(requests)[i := Answered]
      ensures working == Slots(requests) && working < old(working)
      ensures Reserved(requests) == old(Reserved(requests)) - Need(old(requests)[i])
      ensures forall p | p in requests :: p == Answered || p in old(requests)
    {
      Move(i, Answered);
      working := working - 1;
    }

    /** The lock is held: the request takes its bytes, gives up or goes to sleep. */
    method Pass(i: nat, need: int, expired: bool)
      requires Valid() && i < |requests| && HasSlot(requests[i]) && !requests[i].Admitted?
      requires need == 4 * (bodyLimit + 1) <= budget.capacity
      modifies `requests, `working, budget`available
      ensures Valid()
      ensures requests == old(requests)[i := Look(need, old(budget.available), expired)]
    {
      hide Slots, Reserved;
      var pass := budget.Try(need, expired);
      match pass
      case Taken => Move(i, Admitted(need, 0, 0, 0));
      case Expired => GiveSlotBack(i);
      case Waits => Move(i, Waiting(need));
    }

    /** The reservation is computed and first looked for. */
    method Reserve(i: nat, expired: bool)
      requires Valid() && i < |requests| && requests[i].Slotted?
      modifies `requests, `working, budget`available
      ensures Valid()
      ensures requests == old(requests)[i := FirstLook(bodyLimit, budget.capacity, old(budget.available), expired)]
    {
      hide Slots, Reserved;
      var reservation := Reservation(bodyLimit);
      if reservation == None {
        GiveSlotBack(i);
        return;
      }
      var need := reservation.value;
      if need <= 0 || need > budget.capacity {
        GiveSlotBack(i);
        return;
      }
      Pass(i, need, expired);
    }

    /** Woken by a release or by the timer. */
    method Wake(i: nat, expired: bool)
      requires Valid() && i < |requests| && requests[i].Waiting?
      modifies `requests, `working, budget`available
      ensures Valid()
      ensures requests == old(requests)[i := Look(old(requests)[i].need, old(budget.available), expired)]
    {
      assert Honest(requests[i], bodyLimit);
      Pass(i, requests[i].need, expired);
    }

    /** The buffers that readBounded makes for the body and for the decoded body, and gzipBounded for the new one. */
    method Allocate(i: nat, body: bool, decoded: bool, encoded: bool)
      requires Valid() && i < |requests| && requests[i].Admitted?
      modifies `requests, `working
      ensures Valid()
      ensures var q := old(requests)[i];
        requests == old(requests)[i := q.(
          body := if body then BoundedRead.ReadBuffer(bodyLimit) else q.body,
          decoded := if decoded then BoundedRead.ReadBuffer(bodyLimit) else q.decoded,
          encoded := if encoded then BoundedRead.GzipBuffer(bodyLimit) else q.encoded)]
    {
      var q := requests[i];
      assert Honest(q, bodyLimit);
      Move(i, q.(body := if body then BoundedRead.ReadBuffer(bodyLimit) else q.body,
                 decoded := if decoded then BoundedRead.ReadBuffer(bodyLimit) else q.decoded,
                 encoded := if encoded then BoundedRead.GzipBuffer(bodyLimit) else q.encoded));
    }

    /** However `handle` returns, what it held goes back, whole and once. */
    method Finish(i: nat)
      requires Valid() && i < |requests| && requests[i].Admitted?
      modifies `requests, `working, budget`available
      ensures Valid()
      ensures requests == old(requests)[i := Answered]
      ensures budget.available == old(budget.available) + old(requests)[i].need && working == old(working) - 1
    {
      hide Slots;
      var q := requests[i];
      BuffersWithinReserved(requests, bodyLimit);
      assert Honest(q, bodyLimit) && Need(q) <= Reserved(requests);
      budget.Release(q.need);
      Move(i, Answered);
      working := working - 1;
    }

    // ---- what every run keeps ----

    /** No buffers beyond the budget, no work beyond the slots, in every reachable state. */
    lemma Bounded()
      requires Valid()
      ensures AllBuffers(requests) <= Reserved(requests) <= budget.capacity
      ensures budget.available <= budget.capacity
      ensures Slots(requests) <= workCap
    {
      BuffersWithinReserved(requests, bodyLimit);
    }

    /** When nobody holds bytes, whoever looks gets them, even past the deadline. */
    lemma NobodyIsStuck(i: nat, expired: bool)
      requires Valid() && i < |requests| && requests[i].Waiting?
      requires forall q | q in requests :: !q.Admitted?
      ensures Look(requests[i].need, budget.available, expired).Admitted?
    {
      NothingReserved(requests);
      assert requests[i] in requests;
    }
  }

  /** One step of one request. */
  datatype Event =
    | Arrival
    | SlotTaken(i: nat)
    | FirstLook(i: nat, expired: bool)
    | Woken(i: nat, expired: bool)
    | Buffers(i: nat, body: bool, decoded: bool, encoded: bool)
    | Return(i: nat)

  /** Any interleaving of any number of requests; a step that is not the request's next one does not happen. */
  method Run(p: DataPlane, events: seq<Event>)
    requires p.Valid()
    modifies p`requests, p`working, p.budget`available
    ensures p.Valid()
    ensures |old(p.requests)| <= |p.requests|
    ensures forall i | 0 <= i < |old(p.requests)| && old(p.requests)[i].Answered? :: p.requests[i].Answered?
  {
    for k := 0 to |events|
      invariant p.Valid() && |old(p.requests)| <= |p.requests|
      invariant forall i | 0 <= i < |old(p.requests)| && old(p.requests)[i].Answered? :: p.requests[i].Answered?
    {
      hide Slots, Reserved, Honest;
      var qs := p.requests;
      match events[k]
      case Arrival =>
        p.Arrive();
      case SlotTaken(i) =>
        if i < |qs| && qs[i].Arrived? { p.TakeSlot(i); }
      case FirstLook(i, expired) =>
        if i < |qs| && qs[i].Slotted? { p.Reserve(i, expired); }
      case Woken(i, expired) =>
        if i < |qs| && qs[i].Waiting? { p.Wake(i, expired); }
      case Buffers(i, body, decoded, encoded) =>
        if i < |qs| && qs[i].Admitted? { p.Allocate(i, body, decoded, encoded); }
      case Return(i) =>
        if i < |qs| && qs[i].Admitted? { p.Finish(i); }
    }
  }

  /** When every request has been answered, all slots and the whole budget are back. */
  lemma NothingLeaks(p: DataPlane)
    requires p.Valid() && forall q | q in p.requests :: q.Arrived? || q.Answered?
    ensures p.budget.available == p.budget.capacity && p.working == 0
  {
    NothingReserved(p.requests);
    NoSlots(p.requests);
  }

  lemma {:induction false} NoSlots(qs: seq<Request>)
    requires forall q | q in qs :: !HasSlot(q)
    ensures Slots(qs) == 0
  {
    if qs != [] {
      assert qs[0] in qs;
      NoSlots(qs[1..]);
    }
  }

  lemma ProductFits(connections: int, body: int)
    requires 1 <= connections <= 1024 && 1024 <= body <= 0x400_0000
    ensures Wrap64(connections * body) == connections * body
  {
    TimesMonotone(0, connections, body);
    TimesMonotone(connections, 1024, body);
    WrapSmall(connections * body);
  }

  lemma TimesMonotone(a: int, b: int, body: int)
    requires 0 < body && a <= b
    ensures a * body <= b * body
  {
  }

  lemma QuotientFits(connections: int, body: int, buffered: int)
    requires 0 < body && 4 * body <= buffered < connections * body
    ensures var slots := buffered / body; 4 <= slots <= connections && slots * body <= buffered < (slots + 1) * body
  {
    var slots := buffered / body;
    assert buffered == slots * body + buffered % body;
    TimesMonotone(if slots + 1 <= 4 then slots + 1 else 4, 4, body);
    TimesMonotone(if connections <= slots then connections else slots, slots, body);
  }
}
