/**
 * Connection slots, internal/proxy/transparent_server.go and the ConnState hook of internal/proxy/mitm.go.
 * A connection takes a slot before anything else is done for it; whichever way it leaves, the slot comes back
 * once. Connections run interleaved, one atomic action at a time.
 */
module Slots {
  import opened Bytes

  /**
   * Where a connection is. It holds its slot from Routing to Leaving; Leaving is the moment between the
   * decision to call its release closure and the call.
   */
  datatype Conn = Accepted | Rejected | Routing | Relaying | Queued | Served | Leaving | Gone

  predicate HoldsSlot(c: Conn) {
    c.Routing? || c.Relaying? || c.Queued? || c.Served? || c.Leaving?
  }

  /** How many actions of its own a connection is from having left, at most. */
  function Distance(c: Conn): nat {
    match c
    case Accepted => 5
    case Routing => 4
    case Queued => 3
    case Relaying => 2
    case Served => 2
    case Leaving => 1
    case Rejected => 0
    case Gone => 0
  }

  function Held(cs: seq<Conn>): nat {
    if cs == [] then 0 else (if HoldsSlot(cs[0]) then 1 else 0) + Held(cs[1..])
  }

  lemma {:induction false} Moves(cs: seq<Conn>, i: nat, c: Conn)
    requires i < |cs|
    ensures Held(cs[i := c]) == Held(cs) - (if HoldsSlot(cs[i]) then 1 else 0) + (if HoldsSlot(c) then 1 else 0)
  {
    if i == 0 {
      assert cs[i := c][1..] == cs[1..];
    } else {
      assert cs[i := c][1..] == cs[1..][i - 1 := c];
      Moves(cs[1..], i - 1, c);
    }
  }

  lemma {:induction false} Comes(cs: seq<Conn>)
    ensures Held(cs + [Accepted]) == Held(cs)
  {
    if cs == [] {
      assert [Accepted][1..] == [] && cs + [Accepted] == [Accepted];
    } else {
      assert (cs + [Accepted])[1..] == cs[1..] + [Accepted];
      Comes(cs[1..]);
    }
  }

  lemma {:induction false} NobodyHolds(cs: seq<Conn>)
    requires forall c | c in cs :: !HoldsSlot(c)
    ensures Held(cs) == 0
  {
    if cs != [] {
      assert cs[0] in cs;
      NobodyHolds(cs[1..]);
    }
  }

  class Server {
    // connSlots: what the channel can hold, and holds
    const cap: nat
    var used: nat
    // connReleases: the connections whose release closure is stored
    var releases: set<nat>
    // releaseOnce of each connection
    var fired: set<nat>
    var queueDone: bool
    var conns: seq<Conn>
    // how often each connection has received from the channel
    ghost var receives: seq<nat>
    // how many actions each connection has taken
    ghost var acts: seq<nat>

    ghost predicate Valid()
      reads this
    {
      && used == Held(conns) && used <= cap
      && |receives| == |conns| == |acts|
      && (forall i | 0 <= i < |conns| ::
            && (i in releases <==> conns[i].Queued? || conns[i].Served?)
            && (i in fired <==> conns[i].Gone?)
            && receives[i] == (if conns[i].Gone? then 1 else 0)
            && acts[i] + Distance(conns[i]) <= 5)
      && (forall i | i in releases || i in fired :: i < |conns|)
    }

    constructor (cap: nat)
      ensures Valid() && this.cap == cap && conns == [] && !queueDone
    {
      this.cap := cap;
      used, releases, fired, queueDone, conns, receives, acts := 0, {}, {}, false, [], [], [];
    }

    method Accept()
      requires Valid()
      modifies `conns, `receives, `acts
      ensures Valid() && conns == old(conns) + [Accepted]
    {
      Comes(conns);
      conns, receives, acts := conns + [Accepted], receives + [0], acts + [0];
    }

    /** One more action of a connection that is about to come closer to having left. */
    ghost method Count(i: nat)
      requires i < |acts|
      modifies `acts
      ensures acts == old(acts)[i := old(acts)[i] + 1]
    {
      acts := acts[i := acts[i] + 1];
    }

    /** The connection's next state, when the slots and the closures stay as they are. */
    method Move(i: nat, c: Conn)
      requires Valid() && i < |conns|
      requires HoldsSlot(c) == HoldsSlot(conns[i]) && !c.Gone? && !conns[i].Gone?
      requires (c.Queued? || c.Served?) == (conns[i].Queued? || conns[i].Served?)
      requires Distance(c) < Distance(conns[i])
      modifies `conns, `acts
      ensures Valid() && conns == old(conns)[i := c]
    {
      Moves(conns, i, c);
      Count(i);
      conns := conns[i := c];
    }

    /** A full channel turns the connection away. */
    method Acquire(i: nat)
      requires Valid() && i < |conns| && conns[i].Accepted?
      modifies `conns, `used, `acts
      ensures Valid() && conns == old(conns)[i := if old(used) < cap then Routing else Rejected]
    {
      if used < cap {
        Moves(conns, i, Routing);
        Count(i);
        used, conns := used + 1, conns[i := Routing];
      } else {
        Move(i, Rejected);
      }
    }

    /** connReleases.Store, before the connection is offered to the queue. */
    method Store(i: nat)
      requires Valid() && i < |conns| && conns[i].Routing?
      modifies `conns, `releases, `acts
      ensures Valid() && conns == old(conns)[i := Queued]
    {
      Moves(conns, i, Queued);
      Count(i);
      releases, conns := releases + {i}, conns[i := Queued];
    }

    method CloseQueue()
      requires Valid()
      modifies `queueDone
      ensures Valid() && queueDone
    {
      queueDone := true;
    }

    /** connReleases.LoadAndDelete: whoever finds the closure is the one to call it. */
    method LoadAndDelete(i: nat) returns (found: bool)
      requires Valid() && i < |conns|
      modifies `conns, `releases, `acts
      ensures Valid()
      ensures found <==> old(conns)[i].Queued? || old(conns)[i].Served?
      ensures conns == if found then old(conns)[i := Leaving] else old(conns)
    {
      found := i in releases;
      if found {
        Moves(conns, i, Leaving);
        Count(i);
        releases, conns := releases - {i}, conns[i := Leaving];
      }
    }

    /** A connection that holds a slot leaves something in the channel to receive. */
    lemma ReceiveDoesNotBlock(i: nat)
      requires Valid() && i < |conns| && HoldsSlot(conns[i])
      ensures used > 0
    {
      Moves(conns, i, Gone);
    }

    /** The release closure: the slot is received back, without waiting, the first and only time. */
    method Release(i: nat)
      requires Valid() && i < |conns| && conns[i].Leaving?
      modifies `conns, `used, `fired, `receives, `acts
      ensures Valid() && conns == old(conns)[i := Gone]
      ensures used == old(used) - 1
      ensures receives[i] == 1 && old(receives)[i] == 0
    {
      if i !in fired {
        ReceiveDoesNotBlock(i);
        Moves(conns, i, Gone);
        Count(i);
        fired, used := fired + {i}, used - 1;
        receives, conns := receives[i := receives[i] + 1], conns[i := Gone];
      }
    }

    // ---- what every run keeps ----

    /** On no path does a connection act more than five times, and after five it has left. */
    lemma FiveActions(i: nat)
      requires Valid() && i < |conns|
      ensures acts[i] <= 5
      ensures acts[i] == 5 ==> conns[i] in {Gone, Rejected}
    {
    }

    /** With every connection gone or turned away, every slot is free; each one gone gave one back. */
    lemma AllSlotsReturn()
      requires Valid() && forall c | c in conns :: !HoldsSlot(c)
      ensures used == 0
      ensures forall i | 0 <= i < |conns| :: receives[i] == if conns[i].Gone? then 1 else 0
    {
      NobodyHolds(conns);
    }
  }

  datatype Event =
    | Accepting
    | Acquiring(i: nat)
    | ResolverFails(i: nat)
    | PassesThrough(i: nat)
    | Intercepts(i: nat)
    | RelayEnds(i: nat)
    | Delivered(i: nat)
    | QueueCloses
    | FindsQueueClosed(i: nat)
    | HookRuns(i: nat)
    | Releasing(i: nat)

  predicate Is(cs: seq<Conn>, i: nat, c: Conn) {
    i < |cs| && cs[i] == c
  }

  /** The connection whose action this is. */
  function Actor(e: Event): Option<nat> {
    match e
    case Accepting => None
    case QueueCloses => None
    case _ => Some(e.i)
  }

  /** The action is the connection's next one. The hook may be called for any connection; it acts on served ones. */
  predicate Enabled(cs: seq<Conn>, queueDone: bool, e: Event) {
    match e
    case Accepting => false
    case Acquiring(i) => Is(cs, i, Accepted)
    case ResolverFails(i) => Is(cs, i, Routing)
    case PassesThrough(i) => Is(cs, i, Routing)
    case Intercepts(i) => Is(cs, i, Routing)
    case RelayEnds(i) => Is(cs, i, Relaying)
    case Delivered(i) => Is(cs, i, Queued)
    case QueueCloses => false
    case FindsQueueClosed(i) => Is(cs, i, Queued) && queueDone
    case HookRuns(i) => Is(cs, i, Served)
    case Releasing(i) => Is(cs, i, Leaving)
  }

  /** One connection comes closer to having left, and no other moves. */
  ghost predicate Advances(before: seq<Conn>, after: seq<Conn>, i: nat) {
    && i < |before| == |after|
    && Distance(after[i]) < Distance(before[i])
    && forall j | 0 <= j < |before| && j != i :: after[j] == before[j]
  }

  /** One atomic action: an enabled one brings its connection closer to having left; any other moves none. */
  method Step(r: Server, e: Event)
    requires r.Valid()
    modifies r
    ensures r.Valid()
    ensures Enabled(old(r.conns), old(r.queueDone), e) ==> Advances(old(r.conns), r.conns, e.i)
    ensures !Enabled(old(r.conns), old(r.queueDone), e) ==>
      r.conns == old(r.conns) + if e.Accepting? then [Accepted] else []
    // and where it comes to: relayed and refused connections go straight to the release, intercepted ones by the queue
    ensures Enabled(old(r.conns), old(r.queueDone), e) ==>
      r.conns[e.i] ==
        match e
        case Acquiring(_) => if old(r.used) < r.cap then Routing else Rejected
        case ResolverFails(_) => Leaving
        case PassesThrough(_) => Relaying
        case Intercepts(_) => Queued
        case RelayEnds(_) => Leaving
        case Delivered(_) => Served
        case FindsQueueClosed(_) => Leaving
        case HookRuns(_) => Leaving
        case _ => Gone
    ensures old(r.queueDone) ==> r.queueDone
  {
    hide Held, Server.Valid;
    var cs := r.conns;
    match e
    case Accepting =>
      r.Accept();
    case Acquiring(i) =>
      if Is(cs, i, Accepted) { r.Acquire(i); }
    case ResolverFails(i) =>
      if Is(cs, i, Routing) { r.Move(i, Leaving); }
    case PassesThrough(i) =>
      if Is(cs, i, Routing) { r.Move(i, Relaying); }
    case Intercepts(i) =>
      if Is(cs, i, Routing) { r.Store(i); }
    case RelayEnds(i) =>
      if Is(cs, i, Relaying) { r.Move(i, Leaving); }
    case Delivered(i) =>
      if Is(cs, i, Queued) { r.Move(i, Served); }
    case QueueCloses =>
      r.CloseQueue();
    case FindsQueueClosed(i) =>
      if Is(cs, i, Queued) && r.queueDone { var found := r.LoadAndDelete(i); }
    case HookRuns(i) =>
      if i < |cs| && !Is(cs, i, Queued) { var found := r.LoadAndDelete(i); }
    case Releasing(i) =>
      if Is(cs, i, Leaving) { r.Release(i); }
  }

  /**
   * Any actions in any order: never more slots than the cap, exactly as many as connections that hold one, and
   * whoever has left stays away.
   */
  method Run(r: Server, events: seq<Event>)
    requires r.Valid()
    modifies r
    ensures r.Valid() && r.used == Held(r.conns) <= r.cap
    ensures |old(r.conns)| <= |r.conns|
    ensures forall i | 0 <= i < |old(r.conns)| :: Distance(r.conns[i]) <= Distance(old(r.conns)[i])
    ensures forall i | 0 <= i < |old(r.conns)| && old(r.conns)[i] in {Gone, Rejected} :: r.conns[i] == old(r.conns)[i]
  {
    for k := 0 to |events|
      invariant r.Valid() && |old(r.conns)| <= |r.conns|
      invariant forall i | 0 <= i < |old(r.conns)| :: Distance(r.conns[i]) <= Distance(old(r.conns)[i])
      invariant forall i | 0 <= i < |old(r.conns)| && old(r.conns)[i] in {Gone, Rejected} ::
        r.conns[i] == old(r.conns)[i]
    {
      Step(r, events[k]);
    }
  }

  function NextAction(c: Conn, i: nat): Event {
    match c
    case Accepted => Acquiring(i)
    case Routing => Intercepts(i)
    case Queued => Delivered(i)
    case Relaying => RelayEnds(i)
    case Served => HookRuns(i)
    case _ => Releasing(i)
  }

  /** No connection is stuck: until it has left there is an action of its own for it. */
  lemma NobodyIsStuck(cs: seq<Conn>, queueDone: bool, i: nat)
    requires i < |cs|
    ensures cs[i] !in {Gone, Rejected} <==> exists e :: Enabled(cs, queueDone, e) && Actor(e) == Some(i)
  {
    if cs[i] !in {Gone, Rejected} {
      assert Enabled(cs, queueDone, NextAction(cs[i], i));
    }
  }

  /**
   * Under every schedule a connection takes at most as many actions as its distance, which is never more than
   * five; when it has taken as many, it has left.
   */
  method Exhaust(r: Server, events: seq<Event>, i: nat) returns (taken: nat)
    requires r.Valid() && i < |r.conns|
    modifies r
    ensures r.Valid() && i < |r.conns|
    ensures taken + Distance(r.conns[i]) <= Distance(old(r.conns)[i]) <= 5
    ensures taken == 0 ==> r.conns[i] == old(r.conns)[i]
    ensures taken == Distance(old(r.conns)[i]) ==> r.conns[i] in {Gone, Rejected}
  {
    taken := 0;
    for k := 0 to |events|
      invariant r.Valid() && i < |r.conns|
      invariant taken + Distance(r.conns[i]) <= Distance(old(r.conns)[i]) <= 5
      invariant taken == 0 ==> r.conns[i] == old(r.conns)[i]
    {
      if Enabled(r.conns, r.queueDone, events[k]) && Actor(events[k]) == Some(i) { taken := taken + 1; }
      Step(r, events[k]);
    }
  }

  /** An intercepted connection takes all five. */
  lemma FiveAreNeeded(i: nat)
    ensures var path := [Accepted, Routing, Queued, Served, Leaving, Gone];
      forall k | 0 <= k < 5 ::
        Distance(path[k]) == 5 - k && Enabled(seq(i + 1, _ => path[k]), false, NextAction(path[k], i))
  {
  }
}
