/**
 * What is remembered of a run of the scripts in package/ils-gateway/root/usr/bin: every state of the nft sets, the
 * policy the device sets were filled from, the faults, and what the environment did in between.
 */
module Chronicle {
  import opened Bytes
  import opened NftPolicy

  // ---- the table ----

  const ALL_SETS: seq<SetName> :=
    [EnabledV4, EnabledV6, EnabledMac, EnabledMacV6, BlockV6, BlockMacV6, LanIfaces, TargetV4, TargetV6, Monitors]

  const DEVICES: set<SetName> := {EnabledV4, EnabledV6, EnabledMac, EnabledMacV6, BlockV6, BlockMacV6}
  const POLICY: set<SetName> := DEVICES + {LanIfaces}
  const TARGETS: set<SetName> := {TargetV4, TargetV6}

  lemma AllAre()
    ensures forall n :: n in ALL_SETS
    ensures forall n :: n in DEVICES <==> IsDevice(n)
  {
    forall n: SetName ensures n in ALL_SETS {
      assert ALL_SETS[match n
                      case EnabledV4 => 0 case EnabledV6 => 1 case EnabledMac => 2 case EnabledMacV6 => 3
                      case BlockV6 => 4 case BlockMacV6 => 5 case LanIfaces => 6
                      case TargetV4 => 7 case TargetV6 => 8 case Monitors => 9] == n;
    }
  }

  lemma DeviceIsAll()
    ensures forall n | IsDevice(n) :: exists j :: 0 <= j < |DEVICE| && DEVICE[j] == n
    ensures forall n :: n in DEVICE <==> IsDevice(n)
  {
    assert DEVICE[0] == EnabledV4 && DEVICE[1] == EnabledV6 && DEVICE[2] == EnabledMac;
    assert DEVICE[3] == EnabledMacV6 && DEVICE[4] == BlockV6 && DEVICE[5] == BlockMacV6;
  }

  predicate IsTarget(n: SetName) { n.TargetV4? || n.TargetV6? }

  predicate AllPresent(sets: Sets) {
    forall n | n in ALL_SETS :: n in sets
  }

  predicate TargetsPresent(sets: Sets) {
    TargetV4 in sets && TargetV6 in sets && (sets[TargetV4] != {} || sets[TargetV6] != {})
  }

  /** The table after a reload of the firewall: every set is there, and empty but for the default interface. */
  function FreshTable(): Sets {
    map[EnabledV4 := {}, EnabledV6 := {}, EnabledMac := {}, EnabledMacV6 := {}, BlockV6 := {}, BlockMacV6 := {},
        LanIfaces := {Canon(BR_LAN)}, TargetV4 := {}, TargetV6 := {}, Monitors := {}]
  }

  function Fresh(n: SetName): set<Elem> {
    if n.LanIfaces? then {Canon(BR_LAN)} else {}
  }

  lemma FreshTableIs()
    ensures AllPresent(FreshTable()) && DeviceEmpty(FreshTable())
    ensures forall n :: n in FreshTable() && FreshTable()[n] == Fresh(n)
    ensures forall n :: FreshTable()[n] == if n == LanIfaces then {Elem(Iface, 0)} else {}
  {
    AllAre();
  }

  // ---- moments ----

  /**
   * The sets at one moment, and for the device sets: the policy their elements were taken from; whether they
   * held something else when that policy took over; how many of its interfaces have been written since the
   * interface set was last flushed; and after how many of them the last reload came, if one came.
   */
  datatype Snapshot = Snapshot(sets: Sets, policy: Policy, tainted: bool, placed: nat, since: Option<nat>)

  /** The interface set holds what was written, or what was written after the reload, and the default. */
  ghost predicate LanTracked(s: Snapshot) {
    var lan := Lan(s.policy);
    && s.placed <= |lan| && LanIfaces in s.sets
    && match s.since
       case None => s.sets[LanIfaces] == CanonSet(lan[..s.placed])
       case Some(i) => i <= s.placed && s.sets[LanIfaces] == {Canon(BR_LAN)} + CanonSet(lan[i..s.placed])
  }

  /** A valid policy whose interfaces have all been written. */
  ghost predicate LanReady(s: Snapshot) {
    LanTracked(s) && s.placed == |Lan(s.policy)| && ValidInputs(s.policy)
  }

  ghost predicate LanFree(s: Snapshot) {
    DeviceEmpty(s.sets) || s.tainted
  }

  /** What holds at every moment: unless a clear was lied to, nothing of another policy, and interfaces first. */
  ghost predicate Held(s: Snapshot) {
    s.tainted || (Within(s.sets, s.policy) && (DeviceEmpty(s.sets) || LanReady(s)))
  }

  /** Devices are in the sets only while the interface set is the policy's, so that no other network is touched. */
  ghost predicate Guarded(s: Snapshot) {
    DeviceEmpty(s.sets) || Content(s.sets, LanIfaces) == Expected(s.policy, LanIfaces)
  }

  /** The default interface is configured, and no other had been written when the reload came. */
  ghost predicate DefaultSuffices(p: Policy, i: nat) {
    && Canon(BR_LAN) in Expected(p, LanIfaces)
    && forall k | 0 <= k < i && k < |Lan(p)| :: Canon(Lan(p)[k]) == Canon(BR_LAN)
  }

  /**
   * While devices are in the sets they are guarded exactly when no reload came since the interfaces were written,
   * or one that changed nothing.
   */
  lemma GuardedExactly(s: Snapshot)
    requires Held(s) && !s.tainted && !DeviceEmpty(s.sets)
    ensures Guarded(s) <==> s.since.None? || DefaultSuffices(s.policy, s.since.value)
  {
    hide CanonSet, Distinct, ValidInputs, Within, DeviceEmpty;
    var lan := Lan(s.policy);
    ValidationGivesDistinct(s.policy);
    assert lan[..|lan|] == lan;
    if s.since.Some? {
      SuffixWithDefault(lan, s.since.value);
    }
  }

  lemma NotInSuffix(lan: seq<Literal>, i: nat, k: nat)
    requires Distinct(lan) && k < i <= |lan|
    ensures Canon(lan[k]) !in CanonSet(lan[i..|lan|])
  {
    forall l | l in lan[i..|lan|] ensures Canon(l) != Canon(lan[k]) {
      var j :| 0 <= j < |lan| - i && lan[i..|lan|][j] == l;
      assert lan[i + j] == l;
    }
  }

  lemma SuffixWithDefault(lan: seq<Literal>, i: nat)
    requires Distinct(lan) && i <= |lan|
    ensures {Canon(BR_LAN)} + CanonSet(lan[i..|lan|]) == CanonSet(lan) <==>
      Canon(BR_LAN) in CanonSet(lan) && forall k | 0 <= k < i :: Canon(lan[k]) == Canon(BR_LAN)
  {
    var after := {Canon(BR_LAN)} + CanonSet(lan[i..|lan|]);
    if after == CanonSet(lan) {
      assert Canon(BR_LAN) in after;
      forall k | 0 <= k < i ensures Canon(lan[k]) == Canon(BR_LAN) {
        assert lan[k] in lan && Canon(lan[k]) in after;
        NotInSuffix(lan, i, k);
      }
    }
    if Canon(BR_LAN) in CanonSet(lan) && forall k | 0 <= k < i :: Canon(lan[k]) == Canon(BR_LAN) {
      forall e ensures e in after <==> e in CanonSet(lan) {
        if e in CanonSet(lan) {
          var k :| 0 <= k < |lan| && Canon(lan[k]) == e;
          if k >= i { assert lan[i..|lan|][k - i] == lan[k]; }
        }
        if e in CanonSet(lan[i..|lan|]) {
          var j :| 0 <= j < |lan| - i && Canon(lan[i..|lan|][j]) == e;
          assert lan[i + j] == lan[i..|lan|][j];
        }
      }
    }
  }

  // ---- from one moment to the next ----

  /** The sets change; once no device is left, what they held before does not matter any more. */
  ghost function Next(s: Snapshot, sets: Sets): Snapshot {
    s.(sets := sets, tainted := s.tainted && !DeviceEmpty(sets))
  }

  ghost function Reloaded(s: Snapshot): Snapshot {
    Snapshot(FreshTable(), s.policy, false, s.placed, Some(s.placed))
  }

  /** A policy takes over whatever is there. */
  ghost function Adopted(s: Snapshot, p: Policy): Snapshot {
    s.(policy := p, tainted := !DeviceEmpty(s.sets))
  }

  /** The parts of the table that are not the policy's. */
  ghost predicate SamePolicySets(a: Sets, b: Sets) {
    forall n | IsDevice(n) || n == LanIfaces :: (n in a <==> n in b) && (n in a ==> a[n] == b[n])
  }

  lemma HeldReloaded(s: Snapshot)
    ensures Held(Reloaded(s)) && LanFree(Reloaded(s))
    ensures LanTracked(s) ==> LanTracked(Reloaded(s))
  {
    var lan := Lan(s.policy);
    FreshTableIs();
    if LanTracked(s) {
      assert lan[s.placed..s.placed] == [];
      assert {Canon(BR_LAN)} + {} == {Canon(BR_LAN)};
    }
  }

  lemma HeldAdopted(s: Snapshot, p: Policy)
    ensures Held(Adopted(s, p))
  {
  }

  lemma HeldOthers(s: Snapshot, sets: Sets)
    requires SamePolicySets(s.sets, sets)
    ensures Held(s) ==> Held(Next(s, sets))
    ensures LanTracked(s) ==> LanTracked(Next(s, sets))
    ensures LanFree(s) ==> LanFree(Next(s, sets))
  {
    hide Expected, Lan;
  }

  lemma HeldFlush(s: Snapshot, n: SetName)
    requires IsDevice(n)
    ensures Held(s) ==> Held(Next(s, s.sets[n := {}]))
    ensures LanTracked(s) ==> LanTracked(Next(s, s.sets[n := {}]))
  {
    hide Expected, Lan;
  }

  lemma HeldAdd(s: Snapshot, n: SetName, l: Literal)
    requires Held(s) && LanReady(s) && IsDevice(n) && n in s.sets && l in Literals(s.policy, n)
    ensures Held(Next(s, s.sets[n := s.sets[n] + {Canon(l)}]))
    ensures LanReady(Next(s, s.sets[n := s.sets[n] + {Canon(l)}]))
  {
    hide Literals, Lan, ValidInputs;
  }

  /** The interface set is flushed while no device is in the sets. */
  lemma HeldFlushLan(s: Snapshot)
    requires Held(s) && LanFree(s)
    ensures var t := Next(s, s.sets[LanIfaces := {}]).(placed := 0, since := None);
      Held(t) && LanFree(t) && LanTracked(t)
  {
    hide Expected;
    assert Lan(s.policy)[..0] == [];
  }

  /** The next interface is added while no device is in the sets. */
  lemma HeldAddLan(s: Snapshot, l: Literal)
    requires Held(s) && LanFree(s) && LanIfaces in s.sets
    ensures var t := Next(s, s.sets[LanIfaces := s.sets[LanIfaces] + {Canon(l)}]).(placed := s.placed + 1);
      && Held(t) && LanFree(t)
      && (LanTracked(s) && s.placed < |Lan(s.policy)| && l == Lan(s.policy)[s.placed] ==> LanTracked(t))
  {
    hide Expected;
    var lan := Lan(s.policy);
    if LanTracked(s) && s.placed < |lan| && l == lan[s.placed] {
      assert lan[..s.placed + 1] == lan[..s.placed] + [l];
      CanonSetAppend(lan[..s.placed], l);
      if s.since.Some? {
        var i := s.since.value;
        assert lan[i..s.placed + 1] == lan[i..s.placed] + [l];
        CanonSetAppend(lan[i..s.placed], l);
      }
    }
  }

  /**
   * The interfaces of this policy have been written, the firewall is reloaded, a device is added: it is then
   * intercepted on the default interface, which the policy does not name.
   */
  lemma ReloadOpensDefault()
    ensures var guest, mac := Literal(Iface, 1, 0, true), Literal(Mac, 1, 0, true);
      var p := Policy([mac], [], [guest], false, []);
      var written := Snapshot(FreshTable()[LanIfaces := {Canon(guest)}], p, false, 1, None);
      var after := Next(Reloaded(written), FreshTable()[EnabledMac := {Canon(mac)}]);
      Held(written) && LanReady(written) && Held(after) && !Guarded(after)
  {
    var guest, mac := Literal(Iface, 1, 0, true), Literal(Mac, 1, 0, true);
    var p := Policy([mac], [], [guest], false, []);
    var written := Snapshot(FreshTable()[LanIfaces := {Canon(guest)}], p, false, 1, None);
    assert CanonSet([guest]) == {Canon(guest)} && [guest][..1] == [guest];
    HeldReloaded(written);
    HeldAdd(Reloaded(written), EnabledMac, mac);
    var sets := FreshTable()[EnabledMac := {Canon(mac)}];
    assert FreshTable()[EnabledMac] + {Canon(mac)} == {Canon(mac)};
    assert IsDevice(EnabledMac) && sets[EnabledMac] != {};
    assert Canon(guest) in Expected(p, LanIfaces) && Canon(guest) != Canon(BR_LAN);
  }

  // ---- the log ----

  /**
   * Every moment there has been. The faults are those since they were last forgotten: a ctl process was killed, a
   * query failed, a flush, the removal of a marker, or any command that changes something failed. The last two
   * count what others did: reloads of the firewall and timeouts of target addresses.
   */
  datatype Log = Log(history: seq<Snapshot>, died: bool, misread: bool, lostFlush: bool, lostMarker: bool,
                     failed: bool, reloads: nat, expiries: nat)

  const NO_POLICY := Policy([], [], [], false, [])

  function Now(l: Log): Snapshot {
    if l.history == [] then Snapshot(map[], NO_POLICY, false, 0, None) else l.history[|l.history| - 1]
  }

  ghost predicate Good(l: Log, ucis: set<Policy>) {
    && l.history != []
    && forall i | 0 <= i < |l.history| :: l.history[i].policy in ucis && Held(l.history[i])
  }

  ghost function Recorded(l: Log, s: Snapshot): Log {
    l.(history := l.history + [s])
  }

  lemma GoodRecorded(l: Log, ucis: set<Policy>, s: Snapshot)
    requires Good(l, ucis) && s.policy in ucis && Held(s)
    ensures Good(Recorded(l, s), ucis) && Now(Recorded(l, s)) == s
  {
    hide Held;
  }

  lemma GoodNow(l: Log, ucis: set<Policy>)
    requires Good(l, ucis)
    ensures Held(Now(l)) && Now(l).policy in ucis
  {
    hide Held;
  }

  lemma GoodWider(l: Log, ucis: set<Policy>, more: set<Policy>)
    requires Good(l, ucis) && ucis <= more
    ensures Good(l, more)
  {
    hide Held;
  }

  ghost predicate Extends(a: seq<Snapshot>, b: seq<Snapshot>) {
    a <= b
  }

  /** Moments are not forgotten, and what others did is not undone. */
  ghost predicate Onward(a: Log, b: Log) {
    Extends(a.history, b.history) && a.reloads <= b.reloads && a.expiries <= b.expiries
  }

  /** Nor, until they are forgotten on purpose, faults. */
  ghost predicate Later(a: Log, b: Log) {
    && Onward(a, b)
    && (a.died ==> b.died) && (a.misread ==> b.misread) && (a.lostFlush ==> b.lostFlush)
    && (a.lostMarker ==> b.lostMarker) && (a.failed ==> b.failed)
  }

  lemma OnwardTwice(a: Log, b: Log, c: Log)
    requires Onward(a, b) && Onward(b, c)
    ensures Onward(a, c)
  {
  }

  lemma LaterTwice(a: Log, b: Log, c: Log)
    requires Later(a, b) && Later(b, c)
    ensures Later(a, c) && Onward(a, c)
  {
  }

  lemma LaterSame(a: Log)
    ensures Later(a, a) && Onward(a, a)
  {
  }

  /** Nobody reloaded the firewall. */
  predicate NoReload(a: Log, b: Log) {
    a.reloads == b.reloads
  }

  /** Nor did a target address time out. */
  predicate Calm(a: Log, b: Log) {
    NoReload(a, b) && a.expiries == b.expiries
  }

  /** No fault has been seen. */
  predicate Faultless(l: Log) {
    !l.died && !l.misread && !l.lostFlush && !l.lostMarker && !l.failed
  }

  // ---- what a command leaves alone ----

  /** The router as a ctl process sees it. */
  datatype Point = Point(sets: Sets, log: Log, alive: bool)

  /** The sets outside `changed` are as they were, but for what a reload or a timeout did to them. */
  ghost predicate Kept(a: Sets, b: Sets, changed: set<SetName>, reloaded: bool, expired: bool) {
    if reloaded then
      && (forall n :: n in b)
      && forall n | n !in changed :: b[n] == Fresh(n)
    else
      && b.Keys == a.Keys
      && forall n | n in b && n !in changed :: if expired && IsTarget(n) then b[n] <= a[n] else b[n] == a[n]
  }

  /** The interfaces are still tracked, for the same policy. */
  ghost predicate Steady(a: Log, b: Log) {
    var s, t := Now(a), Now(b);
    && t.policy == s.policy && t.placed == s.placed
    && (LanTracked(s) ==> LanTracked(t))
    && (t.tainted ==> s.tainted)
    && (NoReload(a, b) ==> t.since == s.since)
  }

  /** From a to b by commands that change the sets in `changed`, and whatever comes in between. */
  ghost predicate Goes(a: Point, b: Point, changed: set<SetName>) {
    && Later(a.log, b.log)
    && (b.alive ==> a.alive) && (!b.log.died ==> b.alive == a.alive)
    && Kept(a.sets, b.sets, changed, !NoReload(a.log, b.log), a.log.expiries != b.log.expiries)
    && (LanIfaces !in changed ==> Steady(a.log, b.log))
  }

  lemma KeptTwice(a: Sets, b: Sets, c: Sets, first: set<SetName>, second: set<SetName>, both: set<SetName>,
                  r1: bool, r2: bool, e1: bool, e2: bool)
    requires Kept(a, b, first, r1, e1) && Kept(b, c, second, r2, e2) && first <= both && second <= both
    ensures Kept(a, c, both, r1 || r2, e1 || e2)
  {
  }

  lemma GoesTwice(a: Point, b: Point, c: Point, first: set<SetName>, second: set<SetName>, both: set<SetName>)
    requires Goes(a, b, first) && Goes(b, c, second) && first <= both && second <= both
    ensures Goes(a, c, both)
  {
    hide Kept, Extends, LanTracked;
    KeptTwice(a.sets, b.sets, c.sets, first, second, both, !NoReload(a.log, b.log), !NoReload(b.log, c.log),
              a.log.expiries != b.log.expiries, b.log.expiries != c.log.expiries);
    ExtendsTwice(a.log.history, b.log.history, c.log.history);
  }

  lemma ExtendsTwice(a: seq<Snapshot>, b: seq<Snapshot>, c: seq<Snapshot>)
    requires Extends(a, b) && Extends(b, c)
    ensures Extends(a, c)
  {
  }

  lemma GoesSame(a: Point, changed: set<SetName>)
    ensures Goes(a, a, changed)
  {
    hide LanTracked, FreshTable;
  }

  lemma GoesWider(a: Point, b: Point, changed: set<SetName>, more: set<SetName>)
    requires Goes(a, b, changed) && changed <= more
    ensures Goes(a, b, more)
  {
    hide LanTracked, FreshTable;
  }

  /** No device comes out of nowhere, and no set is lost. */
  lemma GoesKeeps(a: Point, b: Point, changed: set<SetName>)
    requires Goes(a, b, changed)
    ensures AllPresent(a.sets) ==> AllPresent(b.sets)
    ensures changed !! DEVICES ==> (DeviceEmpty(a.sets) || !NoReload(a.log, b.log) ==> DeviceEmpty(b.sets))
    ensures NoReload(a.log, b.log) ==> b.sets.Keys == a.sets.Keys
    ensures NoReload(a.log, b.log) ==>
      forall n | n !in changed && !IsTarget(n) :: Content(b.sets, n) == Content(a.sets, n)
    ensures Calm(a.log, b.log) ==> forall n | n !in changed :: Content(b.sets, n) == Content(a.sets, n)
    ensures !NoReload(a.log, b.log) ==> forall n | n !in changed :: Content(b.sets, n) == Fresh(n)
  {
    hide Later, Steady;
    AllAre();
    FreshTableIs();
  }

  lemma CalmIsSame(a: Point, b: Point)
    requires Goes(a, b, {}) && Calm(a.log, b.log)
    ensures b.sets == a.sets
  {
    hide Later, Steady;
  }

  /** A command that adds one moment to the log. */
  lemma RecordedGoes(a: Point, s: Snapshot, changed: set<SetName>)
    requires a.log.history != [] && Kept(a.sets, s.sets, changed, false, false)
    requires LanIfaces !in changed ==> var t := Now(a.log);
      && s.policy == t.policy && s.placed == t.placed && s.since == t.since
      && (LanTracked(t) ==> LanTracked(s)) && (s.tainted ==> t.tainted)
    ensures Goes(a, Point(s.sets, Recorded(a.log, s), a.alive), changed)
  {
    hide LanTracked, Kept;
  }

  /** Faults leave everything else as it was. */
  lemma FaultGoes(a: Point, misread: bool, lostFlush: bool, lostMarker: bool, failed: bool)
    ensures Goes(a, Point(a.sets, Blamed(a.log, misread, lostFlush, lostMarker, failed), a.alive), {})
  {
    hide LanTracked;
  }

  ghost function Blamed(l: Log, misread: bool, lostFlush: bool, lostMarker: bool, failed: bool): Log {
    l.(misread := l.misread || misread, lostFlush := l.lostFlush || lostFlush,
       lostMarker := l.lostMarker || lostMarker, failed := l.failed || failed)
  }

  lemma ReloadGoes(a: Point)
    requires a.log.history != []
    ensures var l := Recorded(a.log, Reloaded(Now(a.log)));
      Goes(a, Point(FreshTable(), l.(reloads := l.reloads + 1), a.alive), {})
  {
    HeldReloaded(Now(a.log));
    FreshTableIs();
    hide LanTracked, FreshTable;
  }

  function Timeout(sets: Sets, gone: set<Elem>): Sets {
    map n | n in sets :: if IsTarget(n) then sets[n] - gone else sets[n]
  }

  lemma TimeoutGoes(a: Point, gone: set<Elem>)
    requires a.log.history != [] && Now(a.log).sets == a.sets
    ensures var s := Next(Now(a.log), Timeout(a.sets, gone));
      && SamePolicySets(a.sets, s.sets)
      && Goes(a, Point(s.sets, Recorded(a.log, s).(expiries := a.log.expiries + 1), a.alive), {})
  {
    HeldOthers(Now(a.log), Timeout(a.sets, gone));
    hide LanTracked;
  }

  /** What commands on the interfaces leave alone. */
  ghost predicate LanMoves(a: Log, b: Log) {
    var s, t := Now(a), Now(b);
    t.policy == s.policy && (t.tainted ==> s.tainted) && (LanFree(s) ==> LanFree(t))
  }

  lemma SteadyReady(a: Log, b: Log)
    requires Steady(a, b)
    ensures LanReady(Now(a)) ==> LanReady(Now(b))
  {
    hide LanTracked, ValidInputs, Lan;
  }
}
