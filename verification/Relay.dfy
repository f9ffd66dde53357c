/**
 * relayPrefixed of internal/proxy/transparent_server.go: dial, write the prefix, copy both ways, and close both
 * connections as soon as one of the two copies has ended. The two copies and the function that waits for them are
 * interleaved in any order.
 */
module Relay {
  import opened Bytes
  import opened Sniff

  datatype Direction = Up | Down

  /** One io.Copy: not begun, under way, or ended, cleanly at the end of its source or with an error. */
  datatype Copy = Idle | Copying | Ended(clean: bool)

  /** One way through the relay: what its source has yet to give, what was read and not written, what has arrived. */
  datatype Pipe = Pipe(left: bytes, held: bytes, got: bytes, copy: Copy)

  /** What a copy puts into the result channel. */
  datatype End = End(dir: Direction, clean: bool)

  datatype Cause = NoDial | NoPrefix | First(end: End)

  /** Where relayPrefixed itself is. The deferred calls close the client's connection first. */
  datatype Main =
    | Dialing
    | Prefixing
    | Waiting
    | ClosingClient(why: Cause)
    | ClosingUpstream(why: Cause)
    | Returned(why: Cause)
  {
    /** The result of a copy was received. */
    predicate Received() {
      (ClosingClient? || ClosingUpstream? || Returned?) && why.First?
    }
  }

  datatype State = State(main: Main, up: Pipe, down: Pipe, results: seq<End>) {
    predicate ClientOpen() {
      !main.ClosingUpstream? && !main.Returned?
    }

    predicate UpstreamOpen() {
      !main.Dialing? && !main.Returned?
    }

    function Of(dir: Direction): Pipe {
      if dir == Up then up else down
    }

    function With(dir: Direction, p: Pipe): State {
      if dir == Up then this.(up := p) else this.(down := p)
    }

    /** The connection that a direction reads from. */
    predicate SourceOpen(dir: Direction) {
      if dir == Up then ClientOpen() else UpstreamOpen()
    }

    predicate TargetOpen(dir: Direction) {
      if dir == Up then UpstreamOpen() else ClientOpen()
    }

    /** One of the copies has put its result into the channel. */
    predicate HasEnd() {
      (main.Waiting? && results != []) || main.Received()
    }
  }

  // ---- the steps ----

  /** What a copy does next. A failing write may have delivered a part; the source ends only when it is drained. */
  datatype Move = Reads(n: nat) | Writes | FailsToWrite(n: nat) | Ends | FailsToRead

  datatype Action =
    | Dials
    | FailsToDial
    | WritesPrefix
    | FailsPrefix(n: nat)
    | Copies(dir: Direction, move: Move)
    | Receives
    | Closes

  function Moved(p: Pipe, m: Move, sourceOpen: bool, targetOpen: bool): Pipe {
    if !p.copy.Copying? then p
    else
      match m
      case Reads(n) =>
        if sourceOpen && p.held == [] && 0 < n <= |p.left| then p.(left := p.left[n..], held := p.left[..n]) else p
      case Writes =>
        if targetOpen && p.held != [] then p.(held := [], got := p.got + p.held) else p
      case FailsToWrite(n) =>
        if p.held != [] && n <= |p.held| && (targetOpen || n == 0)
        then p.(held := p.held[n..], got := p.got + p.held[..n], copy := Ended(false)) else p
      case Ends =>
        if sourceOpen && p.held == [] && p.left == [] then p.(copy := Ended(true)) else p
      case FailsToRead =>
        if p.held == [] then p.(copy := Ended(false)) else p
  }

  /** An action that is not possible changes nothing. */
  function Step(s: State, a: Action): State {
    match a
    case Dials => if s.main == Dialing then s.(main := Prefixing) else s
    case FailsToDial => if s.main == Dialing then s.(main := Returned(NoDial)) else s
    case WritesPrefix =>
      if s.main == Prefixing
      then s.(main := Waiting, up := s.up.(held := [], got := s.up.got + s.up.held, copy := Copying),
              down := s.down.(copy := Copying))
      else s
    case FailsPrefix(n) =>
      if s.main == Prefixing && n <= |s.up.held|
      then s.(main := ClosingClient(NoPrefix), up := s.up.(held := s.up.held[n..], got := s.up.got + s.up.held[..n]))
      else s
    case Copies(dir, m) =>
      var p := Moved(s.Of(dir), m, s.SourceOpen(dir), s.TargetOpen(dir));
      if s.Of(dir).copy == Copying && p.copy.Ended?
      then s.With(dir, p).(results := s.results + [End(dir, p.copy.clean)])
      else s.With(dir, p)
    case Receives =>
      if s.main == Waiting && s.results != []
      then s.(main := ClosingClient(First(s.results[0])), results := s.results[1..]) else s
    case Closes =>
      match s.main
      case ClosingClient(why) => s.(main := ClosingUpstream(why))
      case ClosingUpstream(why) => s.(main := Returned(why))
      case _ => s
  }

  function After(s: State, actions: seq<Action>): State
    decreases |actions|
  {
    if actions == [] then s else After(Step(s, actions[0]), actions[1..])
  }

  /** The prefix stands ready to be written, ahead of what the client sends next. */
  function Start(prefix: bytes, client: bytes, reply: bytes): State {
    State(Dialing, Pipe(client, prefix, [], Idle), Pipe(reply, [], [], Idle), [])
  }

  // ---- what every step keeps ----

  /** Nothing of this direction is on its way or still to come. */
  predicate Drained(p: Pipe) {
    p.held == [] && p.left == []
  }

  /** What has arrived, what was read and what is unread make up the stream; a clean end comes after all of it. */
  ghost predicate Conserves(p: Pipe, stream: bytes) {
    p.got + p.held + p.left == stream && (p.copy == Ended(true) ==> Drained(p))
  }

  ghost predicate HasEnded(s: State, e: End) {
    s.Of(e.dir).copy == Ended(e.clean)
  }

  ghost predicate Begun(s: State) {
    s.main.Waiting? || s.main.Received()
  }

  function EndedCopies(s: State): nat {
    (if s.up.copy.Ended? then 1 else 0) + if s.down.copy.Ended? then 1 else 0
  }

  /** Results and copies agree, there is one result for each copy that has ended, and nothing moves too early. */
  ghost predicate Agree(s: State) {
    && (forall i | 0 <= i < |s.results| :: HasEnded(s, s.results[i]))
    && (s.main.Received() ==> HasEnded(s, s.main.why.end))
    && |s.results| + (if s.main.Received() then 1 else 0) == EndedCopies(s)
    && (if Begun(s) then !s.up.copy.Idle? && !s.down.copy.Idle? else s.up.copy.Idle? && s.down.copy.Idle?)
    && (!Begun(s) ==> s.down.got == [])
    && (s.main == Dialing || s.main == Returned(NoDial) ==> s.up.got == [])
    && (s.main.ClosingClient? || s.main.ClosingUpstream? ==> s.main.why != NoDial)
  }

  ghost predicate Sound(s: State, sent: bytes, reply: bytes) {
    Conserves(s.up, sent) && Conserves(s.down, reply) && Agree(s)
  }

  lemma MovedConserves(p: Pipe, m: Move, sourceOpen: bool, targetOpen: bool, stream: bytes)
    requires Conserves(p, stream)
    ensures Conserves(Moved(p, m, sourceOpen, targetOpen), stream)
    ensures p.got <= Moved(p, m, sourceOpen, targetOpen).got
    ensures Drained(p) ==> Drained(Moved(p, m, sourceOpen, targetOpen))
    ensures !targetOpen ==> Moved(p, m, sourceOpen, targetOpen).got == p.got
    ensures p.copy.Copying? ==> !Moved(p, m, sourceOpen, targetOpen).copy.Idle?
    ensures !p.copy.Copying? ==> Moved(p, m, sourceOpen, targetOpen) == p
  {
  }

  /** A copy that ends puts its result behind those in the channel, and no other result changes. */
  lemma CopyAgrees(s: State, dir: Direction, m: Move)
    requires Agree(s)
    ensures Agree(Step(s, Copies(dir, m)))
    ensures s.HasEnd() ==> Step(s, Copies(dir, m)).HasEnd()
  {
    var p := Moved(s.Of(dir), m, s.SourceOpen(dir), s.TargetOpen(dir));
    var t := Step(s, Copies(dir, m));
    assert s.Of(dir).copy.Copying? ==> !p.copy.Idle?;
    assert !s.Of(dir).copy.Copying? ==> p == s.Of(dir);
    hide Moved;
    forall i | 0 <= i < |t.results| ensures HasEnded(t, t.results[i]) {
      if i < |s.results| { assert HasEnded(s, s.results[i]); }
    }
  }

  lemma MainAgrees(s: State, a: Action)
    requires Agree(s) && !a.Copies?
    ensures Agree(Step(s, a))
    ensures s.HasEnd() ==> Step(s, a).HasEnd()
  {
    if a.Receives? && s.main.Waiting? && s.results != [] {
      assert HasEnded(s, s.results[0]);
    }
  }

  lemma StepSound(s: State, a: Action, sent: bytes, reply: bytes)
    requires Sound(s, sent, reply)
    ensures Sound(Step(s, a), sent, reply)
    ensures s.HasEnd() ==> Step(s, a).HasEnd()
    ensures Drained(s.up) ==> Drained(Step(s, a).up)
    ensures Drained(s.down) ==> Drained(Step(s, a).down)
  {
    hide Moved, Agree, HasEnded;
    match a {
      case Copies(dir, m) =>
        MovedConserves(s.Of(dir), m, s.SourceOpen(dir), s.TargetOpen(dir), if dir == Up then sent else reply);
        CopyAgrees(s, dir, m);
      case _ =>
        MainAgrees(s, a);
    }
  }

  lemma {:induction false} AfterSound(s: State, actions: seq<Action>, sent: bytes, reply: bytes)
    requires Sound(s, sent, reply)
    ensures var t := After(s, actions);
      && Sound(t, sent, reply)
      && (s.HasEnd() ==> t.HasEnd())
      && (Drained(s.up) ==> Drained(t.up)) && (Drained(s.down) ==> Drained(t.down))
    decreases |actions|
  {
    hide Step, Sound;
    if actions != [] {
      StepSound(s, actions[0], sent, reply);
      AfterSound(Step(s, actions[0]), actions[1..], sent, reply);
    }
  }

  // ---- what holds of every run ----

  /** What a direction is to deliver. */
  function Due(dir: Direction, sent: bytes, reply: bytes): bytes {
    if dir == Up then sent else reply
  }

  lemma WholeIsDrained(p: Pipe, stream: bytes)
    requires Conserves(p, stream)
    ensures p.got <= stream
    ensures p.got == stream <==> Drained(p)
  {
  }

  /**
   * In every state of every run each side has received a beginning of what the other has sent, and all of it
   * exactly when none of it is unread or unwritten. A nil result stands for one direction only: the one whose
   * copy ended first, which is whole. Neither copy ever waits for room in the result channel of two. Without an
   * upstream nothing has moved, and after a failed write of the prefix nothing has come back.
   */
  lemma Relayed(prefix: bytes, client: bytes, reply: bytes, actions: seq<Action>)
    ensures var s := After(Start(prefix, client, reply), actions);
      && Sound(s, prefix + client, reply)
      && s.up.got <= prefix + client && s.down.got <= reply
      && (s.up.got == prefix + client <==> Drained(s.up))
      && (s.down.got == reply <==> Drained(s.down))
      && |s.results| <= 2
      && (s.HasEnd() <==> s.up.copy.Ended? || s.down.copy.Ended?)
      && (s.main == Returned(NoDial) ==> s.up.got == [] && s.down.got == [])
      && (s.main == Returned(NoPrefix) ==> s.down.got == [])
      && (s.HasEnd() && s.main.Returned? && s.main.why.end.clean ==>
          s.Of(s.main.why.end.dir).got == Due(s.main.why.end.dir, prefix + client, reply))
  {
    hide After;
    var start := Start(prefix, client, reply);
    assert [] + prefix + client == prefix + client && [] + [] + reply == reply;
    AfterSound(start, actions, prefix + client, reply);
    var s := After(start, actions);
    WholeIsDrained(s.up, prefix + client);
    WholeIsDrained(s.down, reply);
  }

  /** The first result to be put into the channel, received or not. */
  ghost predicate Leads(s: State, e: End) {
    if s.main.Received() then s.main.why.end == e else s.main.Waiting? && s.results != [] && s.results[0] == e
  }

  lemma StepLeads(s: State, a: Action, e: End)
    requires Leads(s, e)
    ensures Leads(Step(s, a), e)
  {
    hide Moved;
  }

  /** What relayPrefixed returns is the result of the copy that ended first, whatever happens after that. */
  lemma {:induction false} FirstEndIsReturned(s: State, actions: seq<Action>, e: End)
    requires Leads(s, e)
    ensures Leads(After(s, actions), e)
    ensures After(s, actions).main.Returned? ==> After(s, actions).main == Returned(First(e))
    decreases |actions|
  {
    hide Step;
    if actions != [] {
      StepLeads(s, actions[0], e);
      FirstEndIsReturned(Step(s, actions[0]), actions[1..], e);
    }
  }

  /**
   * Between the two closes nothing more is read from the client or written to it; what was read from it may still
   * reach the upstream, and more of the reply may be read in vain.
   */
  lemma ClientClosedFirst(s: State, m: Move)
    requires s.main.ClosingUpstream?
    ensures Step(s, Copies(Up, m)).up.left == s.up.left && Step(s, Copies(Down, m)).down.got == s.down.got
    ensures s.up.copy.Copying? && s.up.held != [] ==>
      Step(s, Copies(Up, Writes)).up == s.up.(held := [], got := s.up.got + s.up.held)
    ensures s.down.copy.Copying? && s.down.held == [] && s.down.left != [] ==>
      Step(s, Copies(Down, Reads(|s.down.left|))).down.left == []
  {
  }

  // ---- the first end decides ----

  /** The quickest way to return: the result is received and both connections are closed. */
  const LEAVE: seq<Action> := [Receives, Closes, Closes]

  lemma Leaves(s: State)
    requires s.HasEnd()
    ensures After(s, LEAVE).main.Returned?
    ensures After(s, LEAVE).up == s.up && After(s, LEAVE).down == s.down
  {
    assert LEAVE[1..] == [Closes, Closes] && [Closes, Closes][1..] == [Closes] && [Closes][1..] == [];
  }

  /** Whatever happens until relayPrefixed returns, the direction is then whole. */
  ghost predicate Certain(s: State, dir: Direction, stream: bytes) {
    forall actions | After(s, actions).main.Returned? :: After(s, actions).Of(dir).got == stream
  }

  /**
   * Once a copy has ended, a direction is certain to be delivered whole if and only if nothing of it was unread
   * or unwritten at that moment.
   */
  lemma FirstEndDecides(s: State, dir: Direction, sent: bytes, reply: bytes)
    requires Sound(s, sent, reply) && s.HasEnd()
    ensures Certain(s, dir, Due(dir, sent, reply)) <==> Drained(s.Of(dir))
  {
    hide After, Conserves;
    var stream := Due(dir, sent, reply);
    WholeIsDrained(s.Of(dir), stream);
    if Drained(s.Of(dir)) {
      forall actions | After(s, actions).main.Returned? ensures After(s, actions).Of(dir).got == stream {
        AfterSound(s, actions, sent, reply);
        WholeIsDrained(After(s, actions).Of(dir), stream);
      }
    } else {
      Leaves(s);
      assert After(s, LEAVE).Of(dir).got != stream;
    }
  }

  lemma {:induction false} AfterAppend(s: State, a: seq<Action>, b: seq<Action>)
    ensures After(s, a + b) == After(After(s, a), b)
    decreases |a|
  {
    hide Step;
    if a == [] {
      assert a + b == b;
    } else {
      assert (a + b)[1..] == a[1..] + b;
      AfterAppend(Step(s, a[0]), a[1..], b);
    }
  }

  /** One turn of io.Copy with n bytes. */
  function Carry(dir: Direction, n: nat): seq<Action> {
    if n == 0 then [] else [Copies(dir, Reads(n)), Copies(dir, Writes)]
  }

  lemma Carries(s: State, dir: Direction, n: nat)
    requires s.main.Waiting? && s.Of(dir).copy.Copying? && s.Of(dir).held == [] && n <= |s.Of(dir).left|
    ensures After(s, Carry(dir, n)) ==
      s.With(dir, s.Of(dir).(left := s.Of(dir).left[n..], got := s.Of(dir).got + s.Of(dir).left[..n]))
  {
    if n > 0 {
      var read := Step(s, Copies(dir, Reads(n)));
      assert Carry(dir, n)[1..] == [Copies(dir, Writes)] && [Copies(dir, Writes)][1..] == [];
      assert read.Of(dir) == s.Of(dir).(left := s.Of(dir).left[n..], held := s.Of(dir).left[..n]);
      assert After(s, Carry(dir, n)) == After(read, [Copies(dir, Writes)]) == Step(read, Copies(dir, Writes));
      assert Step(read, Copies(dir, Writes)).Of(dir).held == s.Of(dir).held;
    } else {
      assert s.Of(dir).left[0..] == s.Of(dir).left && s.Of(dir).got + s.Of(dir).left[..0] == s.Of(dir).got;
    }
  }

  /** What is held is written, the rest carried over, and then relayPrefixed returns. */
  function Finish(p: Pipe, dir: Direction): seq<Action> {
    (if p.held == [] then [] else [Copies(dir, Writes)]) + (Carry(dir, |p.left|) + LEAVE)
  }

  /** As long as the other copy is under way it may still finish before the connections are closed: it is a race. */
  lemma MayStillArrive(s: State, dir: Direction, sent: bytes, reply: bytes)
    requires Sound(s, sent, reply) && s.main.Waiting? && s.HasEnd() && s.Of(dir).copy.Copying?
    ensures var t := After(s, Finish(s.Of(dir), dir));
      t.main.Returned? && t.Of(dir).got == Due(dir, sent, reply)
  {
    hide After, Moved, Sound;
    var p := s.Of(dir);
    var first := if p.held == [] then [] else [Copies(dir, Writes)];
    AfterAppend(s, first, Carry(dir, |p.left|) + LEAVE);
    var u := After(s, first);
    FlushesHeld(s, dir);
    Carries(u, dir, |p.left|);
    AfterAppend(u, Carry(dir, |p.left|), LEAVE);
    AfterSound(s, Finish(p, dir), sent, reply);
    var v := After(u, Carry(dir, |p.left|));
    Leaves(v);
    EndsWhole(After(s, Finish(p, dir)), dir, sent, reply);
  }

  lemma FlushesHeld(s: State, dir: Direction)
    requires s.main.Waiting? && s.Of(dir).copy.Copying?
    ensures var p := s.Of(dir);
      After(s, if p.held == [] then [] else [Copies(dir, Writes)]) == s.With(dir, p.(held := [], got := p.got + p.held))
  {
    var p := s.Of(dir);
    if p.held == [] {
      assert p.got + p.held == p.got;
    } else {
      assert [Copies(dir, Writes)][1..] == [];
    }
  }

  lemma EndsWhole(s: State, dir: Direction, sent: bytes, reply: bytes)
    requires Sound(s, sent, reply) && Drained(s.Of(dir))
    ensures s.Of(dir).got == Due(dir, sent, reply)
  {
    WholeIsDrained(s.Of(dir), Due(dir, sent, reply));
  }

  /** After the return nothing moves: both connections are closed. */
  lemma {:induction false} NothingAfterReturn(s: State, actions: seq<Action>)
    requires s.main.Returned?
    ensures After(s, actions).main == s.main
    ensures After(s, actions).up.got == s.up.got && After(s, actions).down.got == s.down.got
    decreases |actions|
  {
    if actions != [] {
      NothingAfterReturn(Step(s, actions[0]), actions[1..]);
    }
  }

  // ---- bytes are lost without any failure ----

  /** `up` bytes of the client's and `down` of the reply are carried over, then `dir` comes to its end. */
  function Exchange(up: nat, down: nat, dir: Direction): seq<Action> {
    [Dials, WritesPrefix] + (Carry(Up, up) + (Carry(Down, down) + ([Copies(dir, Ends)] + LEAVE)))
  }

  /** The other direction then stops where it is, whatever is left, and the result is nil. */
  lemma FirstEndCutsOff(prefix: bytes, client: bytes, reply: bytes, up: nat, down: nat, dir: Direction)
    requires up <= |client| && down <= |reply| && (if dir == Up then up == |client| else down == |reply|)
    ensures var s := After(Start(prefix, client, reply), Exchange(up, down, dir));
      && s.main == Returned(First(End(dir, true)))
      && s.up.got == prefix + client[..up] && s.down.got == reply[..down]
  {
    hide After, Moved;
    var s0 := Start(prefix, client, reply);
    AfterAppend(s0, [Dials, WritesPrefix], Carry(Up, up) + (Carry(Down, down) + ([Copies(dir, Ends)] + LEAVE)));
    Begins(prefix, client, reply);
    var s1 := After(s0, [Dials, WritesPrefix]);
    AfterAppend(s1, Carry(Up, up), Carry(Down, down) + ([Copies(dir, Ends)] + LEAVE));
    Carries(s1, Up, up);
    var s2 := After(s1, Carry(Up, up));
    AfterAppend(s2, Carry(Down, down), [Copies(dir, Ends)] + LEAVE);
    Carries(s2, Down, down);
    var s3 := After(s2, Carry(Down, down));
    AfterAppend(s3, [Copies(dir, Ends)], LEAVE);
    ComesToItsEnd(s3, dir);
    assert [] + reply[..down] == reply[..down];
  }

  lemma Begins(prefix: bytes, client: bytes, reply: bytes)
    ensures After(Start(prefix, client, reply), [Dials, WritesPrefix]) ==
      State(Waiting, Pipe(client, [], prefix, Copying), Pipe(reply, [], [], Copying), [])
  {
    assert [Dials, WritesPrefix][1..] == [WritesPrefix] && [WritesPrefix][1..] == [];
    assert [] + prefix == prefix;
  }

  lemma ComesToItsEnd(s: State, dir: Direction)
    requires s.main.Waiting? && s.results == [] && s.Of(dir).copy.Copying? && Drained(s.Of(dir))
    ensures var t := After(After(s, [Copies(dir, Ends)]), LEAVE);
      t.main == Returned(First(End(dir, true))) && t.up.got == s.up.got && t.down.got == s.down.got
  {
    assert [Copies(dir, Ends)][1..] == [];
    assert LEAVE[1..] == [Closes, Closes] && [Closes, Closes][1..] == [Closes] && [Closes][1..] == [];
  }

  /** One byte of the client's is left when the upstream ends; one byte of the reply when the client does. */
  lemma NilResultLosesBytes()
    ensures var s := After(Start([22], [1], []), Exchange(0, 0, Down));
      var t := After(Start([22], [], [7]), Exchange(0, 0, Up));
      && s.main == Returned(First(End(Down, true))) && s.up.got == [22]
      && t.main == Returned(First(End(Up, true))) && t.down.got == []
  {
    hide After, Exchange;
    FirstEndCutsOff([22], [1], [], 0, 0, Down);
    FirstEndCutsOff([22], [], [7], 0, 0, Up);
  }

  // ---- the connections themselves ----

  /** One direction, as its copy changes it. */
  class Way {
    var left: bytes
    var held: bytes
    var got: bytes
    var copy: Copy

    function Value(): Pipe
      reads this
    {
      Pipe(left, held, got, copy)
    }

    constructor (left: bytes, held: bytes)
      ensures Value() == Pipe(left, held, [], Idle)
    {
      this.left, this.held, got, copy := left, held, [], Idle;
    }

    /** One move of io.Copy. */
    method Proceed(m: Move, sourceOpen: bool, targetOpen: bool)
      modifies this
      ensures Value() == Moved(old(Value()), m, sourceOpen, targetOpen)
    {
      if copy != Copying { return; }
      match m {
        case Reads(n) =>
          if sourceOpen && held == [] && 0 < n <= |left| { left, held := left[n..], left[..n]; }
        case Writes =>
          if targetOpen && held != [] { got, held := got + held, []; }
        case FailsToWrite(n) =>
          if held != [] && n <= |held| && (targetOpen || n == 0) {
            got, held, copy := got + held[..n], held[n..], Ended(false);
          }
        case Ends =>
          if sourceOpen && held == [] && left == [] { copy := Ended(true); }
        case FailsToRead =>
          if held == [] { copy := Ended(false); }
      }
    }

    /** The first n bytes of what is held are written. */
    method Put(n: nat)
      requires n <= |held|
      modifies `got, `held
      ensures Value() == old(Value()).(got := old(got) + old(held)[..n], held := old(held)[n..])
    {
      got, held := got + held[..n], held[n..];
    }
  }

  /** relayPrefixed with its two connections and the result channel. */
  class Session {
    const up: Way
    const down: Way
    var main: Main
    var results: seq<End>

    ghost predicate Valid() {
      up != down
    }

    function Now(): State
      reads this, up, down
    {
      State(main, up.Value(), down.Value(), results)
    }

    constructor (prefix: bytes, client: bytes, reply: bytes)
      ensures Valid() && fresh(up) && fresh(down)
      ensures Now() == Start(prefix, client, reply)
    {
      up := new Way(client, prefix);
      down := new Way(reply, []);
      main, results := Dialing, [];
    }

    /** Before the copies: dial, and write the prefix or its first n bytes. */
    method Open(a: Action)
      requires Valid() && (a.Dials? || a.FailsToDial? || a.WritesPrefix? || a.FailsPrefix?)
      modifies this, up, down
      ensures Now() == Step(old(Now()), a)
    {
      if main == Dialing {
        if a.Dials? { main := Prefixing; }
        if a.FailsToDial? { main := Returned(NoDial); }
      } else if main == Prefixing {
        if a.WritesPrefix? {
          up.Put(|up.held|);
          assert old(up.held)[..|old(up.held)|] == old(up.held);
          up.copy, down.copy, main := Copying, Copying, Waiting;
        } else if a.FailsPrefix? && a.n <= |up.held| {
          up.Put(a.n);
          main := ClosingClient(NoPrefix);
        }
      }
    }

    /** One of the two goroutines proceeds, and puts its result into the channel when it ends. */
    method Proceed(dir: Direction, m: Move)
      requires Valid()
      modifies this, up, down
      ensures Now() == Step(old(Now()), Copies(dir, m))
    {
      var way := if dir == Up then up else down;
      var wasCopying := way.copy == Copying;
      way.Proceed(m, Now().SourceOpen(dir), Now().TargetOpen(dir));
      if wasCopying && way.copy.Ended? { results := results + [End(dir, way.copy.clean)]; }
    }

    /** After the copies: `return <-result`, and the deferred calls. */
    method Leave(a: Action)
      requires a.Receives? || a.Closes?
      modifies this
      ensures Now() == Step(old(Now()), a)
      // the client's connection first
      ensures a.Closes? && old(main).ClosingClient? ==>
        !Now().ClientOpen() && Now().UpstreamOpen() && main == ClosingUpstream(old(main).why)
      ensures a.Closes? && old(main).ClosingUpstream? ==>
        !Now().ClientOpen() && !Now().UpstreamOpen() && main == Returned(old(main).why)
    {
      if a.Receives? {
        if main == Waiting && results != [] { main, results := ClosingClient(First(results[0])), results[1..]; }
      } else if main.ClosingClient? {
        main := ClosingUpstream(main.why);
      } else if main.ClosingUpstream? {
        main := Returned(main.why);
      }
    }

    /** The steps in the order in which the scheduler takes them. */
    method Follow(actions: seq<Action>)
      requires Valid()
      modifies this, up, down
      ensures Now() == After(old(Now()), actions)
    {
      hide Step;
      assert actions[0..] == actions;
      for i := 0 to |actions|
        invariant After(old(Now()), actions) == After(Now(), actions[i..])
      {
        var a := actions[i];
        assert actions[i..][1..] == actions[i + 1..];
        match a {
          case Copies(dir, m) => Proceed(dir, m);
          case Receives => Leave(a);
          case Closes => Leave(a);
          case _ => Open(a);
        }
      }
    }
  }

  // ---- a connection that is passed through ----

  /**
   * routeTransparent from the first read on, with the scheduler's choices in `actions`. A connection that is not
   * intercepted goes to relayPrefixed with the bytes that were read and the ones that were not.
   */
  method RouteTransparent(chunks: seq<Chunk>, p: Policy, reply: bytes, actions: seq<Action>)
    returns (sniffed: Sniffed, relayed: Option<State>)
    ensures sniffed == Run([], chunks, p)
    ensures relayed.Some? <==> sniffed.decision == Passthrough
    ensures relayed.Some? ==>
      var s := relayed.value;
      && s == After(Start(sniffed.buf, Sniff.Stream(sniffed.left), reply), actions)
      && s.up.got <= Sniff.Stream(chunks) && s.down.got <= reply
      && (s.up.got == Sniff.Stream(chunks) <==> Drained(s.up))
      && (s.down.got == reply <==> Drained(s.down))
      && (s.HasEnd() ==> (Certain(s, Up, Sniff.Stream(chunks)) <==> Drained(s.up)))
      && (s.HasEnd() ==> (Certain(s, Down, reply) <==> Drained(s.down)))
  {
    hide Run, After, Certain;
    sniffed := ReadAndClassify(chunks, p);
    NoByteLost([], chunks, p);
    assert [] + Sniff.Stream(chunks) == Sniff.Stream(chunks);
    if sniffed.decision == Mitm { return sniffed, None; }
    var session := new Session(sniffed.buf, Sniff.Stream(sniffed.left), reply);
    session.Follow(actions);
    var s := session.Now();
    Relayed(sniffed.buf, Sniff.Stream(sniffed.left), reply, actions);
    if s.HasEnd() {
      FirstEndDecides(s, Up, Sniff.Stream(chunks), reply);
      FirstEndDecides(s, Down, Sniff.Stream(chunks), reply);
    }
    relayed := Some(s);
  }
}
