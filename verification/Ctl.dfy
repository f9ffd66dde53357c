/**
 * The commands of package/ils-gateway/root/usr/bin/locspoofctl over the state of a router, and the ways in which
 * they fail: any nft or marker command may fail, any query may, the ctl process may die in between, and before
 * every single command others may reload the firewall or target addresses time out.
 */
module Ctl {
  import opened Bytes
  import opened NftPolicy
  import opened Chronicle
  import opened ApplySteps
  import opened Targets

  datatype Marker = Enabled | Bypass | NftApplied | TargetV4Required | TargetV6Required | RefreshOk

  ghost predicate OnlyMarkers(before: set<Marker>, after: set<Marker>, changed: set<Marker>) {
    forall m | m !in changed :: m in before <==> m in after
  }

  const REFRESH_INTERVAL: int := 300

  /** The device sets of b are those of a. */
  ghost predicate SameDevices(a: Sets, b: Sets) {
    forall n | IsDevice(n) :: (n in a <==> n in b) && Content(a, n) == Content(b, n)
  }

  /** Some set with elements was neither flushed nor, after that, listed. */
  ghost predicate Deceived(sets: Sets, lost: set<SetName>, denied: set<SetName>) {
    exists n :: n in sets && IsDevice(n) && sets[n] != {} && n in lost && n in denied
  }

  lemma DeceivedIsLeft(before: Sets, after: Sets, lost: set<SetName>, denied: set<SetName>)
    requires ClearSucceeds(before, lost, denied) && SameDevices(after, AfterClear(before, lost))
    ensures DeviceEmpty(after) <==> !Deceived(before, lost, denied)
  {
    ClearCanBeTrusted(before, lost, denied);
    SameDevicesEmpty(after, AfterClear(before, lost));
    hide AfterClear, ClearSucceeds, SameDevices, DeviceEmpty;
  }

  lemma SameDevicesEmpty(a: Sets, b: Sets)
    requires SameDevices(a, b)
    ensures DeviceEmpty(a) <==> DeviceEmpty(b)
  {
    if !DeviceEmpty(b) {
      var n :| n in b && IsDevice(n) && b[n] != {};
      assert Content(a, n) == Content(b, n);
    }
    if !DeviceEmpty(a) {
      var n :| n in a && IsDevice(n) && a[n] != {};
      assert Content(a, n) == Content(b, n);
    }
  }

  /** The targets of a and b are the same. */
  ghost predicate SameTargets(a: Sets, b: Sets) {
    Content(a, TargetV4) == Content(b, TargetV4) && Content(a, TargetV6) == Content(b, TargetV6)
  }

  /** The policy's next interface, with the ones before it written. */
  ghost predicate NextLan(s: Snapshot, l: Literal) {
    LanTracked(s) && s.placed < |Lan(s.policy)| && l == Lan(s.policy)[s.placed]
  }

  class Router {
    // nft
    var sets: Sets
    // files
    var markers: set<Marker>
    var lastRefresh: Option<nat>
    var request: bool
    // environment
    var uci: Policy
    var clock: nat
    var ready: bool
    var responding: bool
    var runDirSafe: bool
    // the running ctl process
    var alive: bool

    // every moment so far, and every policy the configuration has held
    ghost var log: Log
    ghost var ucis: set<Policy>

    ghost predicate Valid()
      reads `sets, `log, `uci, `ucis
    {
      uci in ucis && Good(log, ucis) && Now(log).sets == sets
    }

    ghost function At(): Point
      reads `sets, `log, `alive
    {
      Point(sets, log, alive)
    }

    /** A router that comes up: empty device sets, whatever markers were left, and one configuration. */
    constructor (table: Sets, markers: set<Marker>, lastRefresh: Option<nat>, uci: Policy, clock: nat)
      requires DeviceEmpty(table)
      ensures Valid() && Faultless(log) && log.history == [Snapshot(table, uci, false, 0, None)] && ucis == {uci}
      ensures sets == table && this.markers == markers && this.lastRefresh == lastRefresh
      ensures this.uci == uci && this.clock == clock
      ensures !ready && !responding && !request && runDirSafe
    {
      sets, this.markers, this.lastRefresh, this.uci, this.clock := table, markers, lastRefresh, uci, clock;
      request, ready, responding, runDirSafe, alive := false, false, false, true, true;
      log := Log([Snapshot(table, uci, false, 0, None)], false, false, false, false, false, 0, 0);
      ucis := {uci};
    }

    lemma HeldNow()
      requires Valid()
      ensures Held(Now(log)) && Now(log).sets == sets && Now(log).policy in ucis && log.history != [] && uci in ucis
    {
      GoodNow(log, ucis);
    }

    // ---- what happens between commands ----

    /** The sets change, and the moment is remembered. */
    method Commit(next: Sets, ghost s: Snapshot)
      requires Valid() && s.sets == next && s.policy in ucis && Held(s)
      modifies `sets, `log
      ensures Valid() && sets == next && log == Recorded(old(log), s) && Now(log) == s
    {
      GoodRecorded(log, ucis, s);
      sets, log := next, Recorded(log, s);
    }

    /** The firewall is reloaded; `others` says that it was not the watchdog's doing. */
    method Reload(ghost others: bool)
      requires Valid()
      modifies `sets, `log
      ensures Valid() && sets == FreshTable() && Later(old(log), log)
      ensures log.reloads == old(log).reloads + if others then 1 else 0
      ensures log.expiries == old(log).expiries
      ensures others ==> Goes(old(At()), At(), {})
      ensures LanFree(Now(log))
    {
      ghost var a := At();
      HeldNow();
      HeldReloaded(Now(log));
      ReloadGoes(a);
      Commit(FreshTable(), Reloaded(Now(log)));
      if others {
        log := log.(reloads := log.reloads + 1);
      }
    }

    /** Target addresses time out. */
    method Expire(gone: set<Elem>)
      requires Valid()
      modifies `sets, `log
      ensures Valid() && Goes(old(At()), At(), {})
      ensures LanFree(old(Now(log))) ==> LanFree(Now(log))
    {
      hide Goes, Held, LanFree, SamePolicySets, Timeout;
      HeldNow();
      TimeoutGoes(At(), gone);
      HeldOthers(Now(log), Timeout(sets, gone));
      Commit(Timeout(sets, gone), Next(Now(log), Timeout(sets, gone)));
      log := log.(expiries := log.expiries + 1);
    }

    /** Before a command: others do what they do, any number of times, and the process may be killed. */
    method Between()
      requires Valid()
      modifies `sets, `log, `alive
      ensures Valid() && Goes(old(At()), At(), {})
      ensures LanFree(old(Now(log))) ==> LanFree(Now(log))
    {
      hide Valid, Goes, LanFree, FreshTable;
      GoesSame(At(), {});
      var rounds: nat :| rounds >= 0;
      for i := 0 to rounds
        invariant Valid() && Goes(old(At()), At(), {})
        invariant LanFree(old(Now(log))) ==> LanFree(Now(log))
      {
        ghost var p := At();
        var reload: bool := *;
        if reload {
          Reload(true);
        } else {
          var gone: set<Elem> := *;
          Expire(gone);
        }
        GoesTwice(old(At()), p, At(), {}, {}, {});
      }
      ghost var p := At();
      MayDie();
      GoesTwice(old(At()), p, At(), {}, {}, {});
    }

    method MayDie()
      requires Valid()
      modifies `log, `alive
      ensures Valid() && Goes(old(At()), At(), {}) && Now(log) == old(Now(log))
    {
      var dies: bool := *;
      if alive && dies {
        alive := false;
        log := log.(died := true);
      }
    }

    ghost method Blame(misread: bool, lostFlush: bool, lostMarker: bool, failed: bool)
      requires Valid()
      modifies `log
      ensures Valid() && log == Blamed(old(log), misread, lostFlush, lostMarker, failed)
      ensures Goes(old(At()), At(), {}) && Now(log) == old(Now(log))
    {
      FaultGoes(At(), misread, lostFlush, lostMarker, failed);
      log := Blamed(log, misread, lostFlush, lostMarker, failed);
    }

    // ---- single commands ----

    /** A moment that a command makes, and its place in the run. */
    method Make(next: Sets, ghost s: Snapshot, ghost changed: set<SetName>)
      requires Valid() && s.sets == next && s.policy in ucis && Held(s)
      requires Kept(sets, next, changed, false, false)
      requires LanIfaces !in changed ==> var t := Now(log);
        && s.policy == t.policy && s.placed == t.placed && s.since == t.since
        && (LanTracked(t) ==> LanTracked(s)) && (s.tainted ==> t.tainted)
      modifies `sets, `log
      ensures Valid() && sets == next && Now(log) == s && Calm(old(log), log)
      ensures Goes(old(At()), At(), changed)
    {
      hide Held, Kept, LanTracked;
      HeldNow();
      RecordedGoes(At(), s, changed);
      Commit(next, s);
    }

    /** nft flush set, for a device set; `mid` is the state that the command finds. */
    method Flush(n: SetName) returns (ok: bool, ghost mid: Point)
      requires Valid() && IsDevice(n)
      modifies `sets, `log, `alive
      ensures Valid() && Goes(old(At()), mid, {}) && Goes(old(At()), At(), {n}) && Calm(mid.log, log)
      ensures sets == if ok then mid.sets[n := {}] else mid.sets
      ensures ok ==> alive && n in mid.sets
      ensures !ok && alive && n in sets ==> log.lostFlush && log.failed
    {
      hide Valid, Goes, Held, LanFree, LanTracked;
      Between();
      mid := At();
      ok := *;
      ok := ok && alive && n in sets;
      if ok {
        HeldNow();
        HeldFlush(Now(log), n);
        Make(sets[n := {}], Next(Now(log), sets[n := {}]), {n});
      } else if alive && n in sets {
        Blame(false, true, false, true);
        GoesWider(mid, At(), {}, {n});
      } else {
        GoesSame(mid, {n});
      }
      GoesTwice(old(At()), mid, At(), {}, {n}, {n});
    }

    /** nft add element, for a device set: the literal is the policy's, whose interfaces have been written. */
    method Add(n: SetName, l: Literal) returns (ok: bool, ghost mid: Point)
      requires Valid() && IsDevice(n)
      requires alive ==> LanReady(Now(log)) && l in Literals(Now(log).policy, n)
      modifies `sets, `log, `alive
      ensures Valid() && Goes(old(At()), mid, {}) && Goes(old(At()), At(), {n}) && Calm(mid.log, log)
      ensures sets == if ok then mid.sets[n := Content(mid.sets, n) + {Canon(l)}] else mid.sets
      ensures ok ==> alive && n in mid.sets
      ensures !ok && alive && n in sets ==> log.failed
    {
      hide Valid, Goes, Held, LanFree, LanTracked, LanReady, Literals;
      Between();
      mid := At();
      GoesSteady(old(At()), mid, {});
      GoesLater(old(At()), mid, {});
      ok := *;
      ok := ok && alive && n in sets;
      if ok {
        Put(n, l);
      } else if alive && n in sets {
        Blame(false, false, false, true);
        GoesWider(mid, At(), {}, {n});
      } else {
        GoesSame(mid, {n});
      }
      GoesTwice(old(At()), mid, At(), {}, {n}, {n});
    }

    method Put(n: SetName, l: Literal)
      requires Valid() && IsDevice(n) && n in sets
      requires LanReady(Now(log)) && l in Literals(Now(log).policy, n)
      modifies `sets, `log
      ensures Valid() && Goes(old(At()), At(), {n}) && Calm(old(log), log)
      ensures sets == old(sets)[n := Content(old(sets), n) + {Canon(l)}]
    {
      hide Valid, Goes, Held, Literals;
      HeldNow();
      HeldAdd(Now(log), n, l);
      Make(sets[n := sets[n] + {Canon(l)}], Next(Now(log), sets[n := sets[n] + {Canon(l)}]), {n});
    }

    /** nft flush set ios_lan_ifaces, while no device is in the sets. */
    method FlushLan() returns (ok: bool)
      requires Valid() && (alive ==> LanFree(Now(log)))
      modifies `sets, `log, `alive
      ensures Valid() && Goes(old(At()), At(), {LanIfaces}) && LanMoves(old(log), log)
      ensures ok ==> alive && LanTracked(Now(log)) && Now(log).placed == 0 && Now(log).since == None
      ensures !ok && alive && LanIfaces in sets ==> log.lostFlush && log.failed
    {
      hide Valid, Goes, Held, LanFree, LanTracked, Kept;
      Between();
      ghost var mid := At();
      GoesLan(old(At()), mid);
      GoesLater(old(At()), mid, {});
      ok := *;
      ok := ok && alive && LanIfaces in sets;
      if ok {
        HeldNow();
        HeldFlushLan(Now(log));
        OtherSets(sets, LanIfaces, {});
        Make(sets[LanIfaces := {}], Next(Now(log), sets[LanIfaces := {}]).(placed := 0, since := None), {LanIfaces});
      } else if alive && LanIfaces in sets {
        Blame(false, true, false, true);
        GoesWider(mid, At(), {}, {LanIfaces});
      } else {
        GoesSame(mid, {LanIfaces});
      }
      GoesTwice(old(At()), mid, At(), {}, {LanIfaces}, {LanIfaces});
    }

    /** nft add element, for the next interface. */
    method AddLan(l: Literal) returns (ok: bool)
      requires Valid() && (alive ==> LanFree(Now(log)))
      modifies `sets, `log, `alive
      ensures Valid() && Goes(old(At()), At(), {LanIfaces}) && LanMoves(old(log), log)
      ensures ok ==> alive && Now(log).placed == old(Now(log)).placed + 1
      ensures ok && NextLan(old(Now(log)), l) ==> LanTracked(Now(log))
      ensures NoReload(old(log), log) ==> Now(log).since == old(Now(log)).since
      ensures !ok && alive && LanIfaces in sets ==> log.failed
    {
      hide Valid, Goes, Held, LanFree, LanTracked, Kept, Lan;
      Between();
      ghost var mid := At();
      GoesLan(old(At()), mid);
      GoesLater(old(At()), mid, {});
      ok := *;
      ok := ok && alive && LanIfaces in sets;
      if ok {
        HeldNow();
        HeldAddLan(Now(log), l);
        ghost var s := Now(log);
        OtherSets(sets, LanIfaces, sets[LanIfaces] + {Canon(l)});
        var next := sets[LanIfaces := sets[LanIfaces] + {Canon(l)}];
        Make(next, Next(s, next).(placed := s.placed + 1), {LanIfaces});
      } else if alive && LanIfaces in sets {
        Blame(false, false, false, true);
        GoesWider(mid, At(), {}, {LanIfaces});
      } else {
        GoesSame(mid, {LanIfaces});
      }
      GoesTwice(old(At()), mid, At(), {}, {LanIfaces}, {LanIfaces});
    }

    /** nft -f: both target sets are replaced, or nothing is. */
    method ReplaceTargets(v4: set<Elem>, v6: set<Elem>) returns (ok: bool, ghost mid: Point)
      requires Valid()
      modifies `sets, `log, `alive
      ensures Valid() && Goes(old(At()), mid, {}) && Goes(old(At()), At(), TARGETS) && Calm(mid.log, log)
      ensures sets == if ok then mid.sets[TargetV4 := v4][TargetV6 := v6] else mid.sets
      ensures ok ==> alive && TargetV4 in mid.sets && TargetV6 in mid.sets
      ensures !ok && alive && TargetV4 in sets && TargetV6 in sets ==> log.failed
    {
      hide Valid, Goes, Held, LanFree, LanTracked;
      Between();
      mid := At();
      ok := *;
      ok := ok && alive && TargetV4 in sets && TargetV6 in sets;
      if ok {
        HeldNow();
        var next := sets[TargetV4 := v4][TargetV6 := v6];
        HeldOthers(Now(log), next);
        Make(next, Next(Now(log), next), TARGETS);
      } else if alive && TargetV4 in sets && TargetV6 in sets {
        Blame(false, false, false, true);
        GoesWider(mid, At(), {}, TARGETS);
      } else {
        GoesSame(mid, TARGETS);
      }
      GoesTwice(old(At()), mid, At(), {}, TARGETS, TARGETS);
    }

    /** nft list set. */
    method Lists(n: SetName) returns (ok: bool)
      requires Valid()
      modifies `sets, `log, `alive
      ensures Valid() && Goes(old(At()), At(), {})
      ensures ok ==> alive && n in sets
      ensures !ok && alive && n in sets ==> log.misread
    {
      ok := Query(n, _ => true);
    }

    /** A query over the elements of a set: it fails when the set is absent, and may fail. */
    method Query(n: SetName, truth: set<Elem> -> bool) returns (ok: bool)
      requires Valid()
      modifies `sets, `log, `alive
      ensures Valid() && Goes(old(At()), At(), {})
      ensures ok ==> alive && n in sets && truth(sets[n])
      ensures !ok && alive && n in sets && truth(sets[n]) ==> log.misread
    {
      hide Valid, Goes, LanFree;
      Between();
      ghost var mid := At();
      ok := *;
      ok := ok && alive && n in sets && truth(sets[n]);
      if !ok && alive && n in sets && truth(sets[n]) {
        Blame(true, false, false, false);
        GoesTwice(old(At()), mid, At(), {}, {}, {});
      }
    }

    /** Whether a command that does not touch the sets succeeds. */
    method Succeeds(ghost marker: bool) returns (ok: bool)
      requires Valid()
      modifies `sets, `log, `alive
      ensures Valid() && Goes(old(At()), At(), {})
      ensures ok ==> alive
      ensures !ok && alive ==> log.failed && (marker ==> log.lostMarker)
    {
      hide Valid, Goes, LanFree;
      Between();
      ghost var mid := At();
      ok := *;
      ok := ok && alive;
      if !ok && alive {
        Blame(false, false, marker, true);
        GoesTwice(old(At()), mid, At(), {}, {}, {});
      }
    }

    method WriteMarker(m: Marker) returns (ok: bool)
      requires Valid()
      modifies `sets, `log, `alive, `markers
      ensures Valid() && Goes(old(At()), At(), {})
      ensures markers == if ok then old(markers) + {m} else old(markers)
      ensures ok ==> alive
      ensures !ok && alive ==> log.failed
    {
      hide Valid, Goes;
      ok := Succeeds(false);
      if ok { markers := markers + {m}; }
    }

    method RemoveMarker(m: Marker) returns (ok: bool)
      requires Valid()
      modifies `sets, `log, `alive, `markers
      ensures Valid() && Goes(old(At()), At(), {})
      ensures markers == if ok then old(markers) - {m} else old(markers)
      ensures ok ==> alive
      ensures !ok && alive ==> log.failed && log.lostMarker
    {
      hide Valid, Goes;
      ok := Succeeds(true);
      if ok { markers := markers - {m}; }
    }

    // ---- clear ----

    /** One round of clear: a set that could not be flushed is an error unless it is listed as absent. */
    method FlushOrAbsent(n: SetName) returns (ok: bool, ghost lost: bool, ghost denied: bool)
      requires Valid() && IsDevice(n)
      modifies `sets, `log, `alive
      ensures Valid() && Goes(old(At()), At(), {n})
      ensures ok <==> (lost ==> denied)
      ensures alive && n in sets && sets[n] != {} ==> log.lostFlush && (!ok || log.misread)
      ensures alive && !ok ==> (log.failed && log.lostFlush) || !NoReload(old(log), log)
      ensures alive && NoReload(old(log), log) ==> Content(sets, n) == if lost then Content(old(sets), n) else {}
      ensures alive && NoReload(old(log), log) && !ok ==> n in old(sets)
      ensures DeviceEmpty(old(sets)) || !NoReload(old(log), log) ==> DeviceEmpty(sets)
    {
      hide Valid, Goes, LanFree, DeviceEmpty;
      ghost var p0 := At();
      ghost var mid;
      ok, mid := Flush(n);
      ghost var p1 := At();
      GoesOne(p0, mid, n);
      lost, denied := !ok, false;
      GoesLater(p0, p1, {n});
      StillEmpty(mid.sets, n);
      if !ok {
        var present := Lists(n);
        ghost var p2 := At();
        GoesTwice(p0, p1, p2, {n}, {}, {n});
        GoesOne(p1, p2, n);
        denied, ok := !present, !present;
      }
    }

    method Clear() returns (ok: bool, ghost lost: set<SetName>, ghost denied: set<SetName>)
      requires Valid()
      modifies `sets, `log, `alive
      ensures Valid() && Goes(old(At()), At(), DEVICES)
      ensures alive && !log.lostFlush ==> DeviceEmpty(sets)
      ensures alive && !ok ==> (log.failed && log.lostFlush) || !NoReload(old(log), log)
      ensures alive && ok ==> DeviceEmpty(sets) || (log.lostFlush && log.misread)
      // undisturbed, it is exactly this
      ensures alive && NoReload(old(log), log) ==> SameDevices(sets, AfterClear(old(sets), lost))
      ensures alive && Calm(old(log), log) ==> sets == AfterClear(old(sets), lost)
      ensures alive && NoReload(old(log), log) ==> (ok <==> ClearSucceeds(old(sets), lost, denied))
      ensures !NoReload(old(log), log) ==> DeviceEmpty(sets)
    {
      hide Valid, Goes, LanFree, DeviceEmpty;
      ok, lost, denied := true, {}, {};
      ghost var p0 := At();
      AllAre();
      DeviceIsAll();
      GoesSame(p0, DEVICES);
      for k := 0 to |DEVICE|
        invariant Valid() && Goes(p0, At(), DEVICES) && NoReload(p0.log, old(log)) && p0.sets == old(sets)
        invariant alive ==> ClearedSoFar(p0, At(), k, lost)
        invariant alive ==> LeftSoFar(sets, log, k, ok)
        invariant alive && !ok ==> (log.failed && log.lostFlush) || !NoReload(p0.log, log)
        invariant !NoReload(p0.log, log) ==> DeviceEmpty(sets)
        invariant ok <==> forall j | 0 <= j < k :: DEVICE[j] in lost ==> DEVICE[j] in denied
        invariant forall j | k <= j < |DEVICE| :: DEVICE[j] !in lost && DEVICE[j] !in denied
        invariant alive && NoReload(p0.log, log) ==>
          forall j | 0 <= j < k :: DEVICE[j] in lost && DEVICE[j] !in denied ==> DEVICE[j] in p0.sets
      {
        hide ClearedSoFar, LeftSoFar;
        ghost var p := At();
        var gone, lostThis, deniedThis := FlushOrAbsent(DEVICE[k]);
        DistinctDevices(k);
        GoesTwice(p0, p, At(), DEVICES, {DEVICE[k]}, DEVICES);
        GoesLater(p, At(), {DEVICE[k]});
        GoesLater(p0, p, DEVICES);
        GoesKeys(p0, p, DEVICES);
        if alive {
          ClearedStep(p0, p, At(), k, lost, lostThis);
          LeftStep(p, At(), k, ok, gone);
        }
        if lostThis { lost := lost + {DEVICE[k]}; }
        if deniedThis { denied := denied + {DEVICE[k]}; }
        if !gone { ok := false; }
      }
      if alive {
        ClearedAll(p0, At(), lost);
        LeftAll(sets, log, ok);
      }
    }

    // ---- apply ----

    /** Clear, and the policy takes over. */
    method ClearFor(p: Policy) returns (ok: bool, ghost lost: set<SetName>, ghost denied: set<SetName>)
      requires Valid() && p == uci && ValidInputs(p)
      modifies `sets, `log, `alive
      ensures Valid() && Goes(old(At()), At(), POLICY)
      ensures ok && alive ==> Now(log).policy == p && LanFree(Now(log))
      ensures ok && alive && !log.lostFlush ==> !Now(log).tainted
      // it starts on tainted sets exactly when a set with elements was neither flushed nor listed
      ensures ok && alive && NoReload(old(log), log) ==> (Now(log).tainted <==> Deceived(old(sets), lost, denied))
      ensures alive && NoReload(old(log), log) ==>
        SameDevices(sets, AfterClear(old(sets), lost)) && (ok <==> ClearSucceeds(old(sets), lost, denied))
      ensures !ok && alive ==> log.failed || !NoReload(old(log), log)
    {
      hide Valid, Goes, DeviceEmpty, AfterClear, SameDevices, ValidInputs;
      ghost var p0 := At();
      ok, lost, denied := Clear();
      ghost var p1 := At();
      GoesWider(p0, p1, DEVICES, POLICY);
      if ok && alive {
        HeldNow();
        Adopt(p);
        GoesTwice(p0, p1, At(), POLICY, POLICY, POLICY);
        GoesLater(p1, At(), POLICY);
        if NoReload(p0.log, log) { DeceivedIsLeft(p0.sets, sets, lost, denied); }
      }
    }

    /** A policy takes over the device sets, with whatever a clear has left in them. */
    method Adopt(p: Policy)
      requires Valid() && p in ucis
      modifies `sets, `log
      ensures Valid() && Goes(old(At()), At(), POLICY) && Calm(old(log), log)
      ensures sets == old(sets) && Now(log) == Adopted(old(Now(log)), p)
      ensures LanFree(Now(log)) && (Now(log).tainted <==> !DeviceEmpty(sets))
    {
      hide Goes, Held, LanTracked;
      HeldNow();
      HeldAdopted(Now(log), p);
      Make(sets, Adopted(Now(log), p), POLICY);
    }

    /** The interface set, replaced before any device is added. */
    method ApplyLan(p: Policy) returns (ok: bool)
      requires Valid() && (alive ==> Now(log).policy == p && LanFree(Now(log)))
      modifies `sets, `log, `alive
      ensures Valid() && Goes(old(At()), At(), {LanIfaces}) && LanMoves(old(log), log)
      ensures ok ==> alive && LanTracked(Now(log)) && Now(log).placed == |Lan(p)|
      ensures ok && NoReload(old(log), log) ==> Now(log).since == None
      ensures !ok && alive && AllPresent(old(sets)) ==> log.failed
    {
      hide Valid, Goes, LanFree, LanTracked, Lan, AllPresent;
      ghost var p0 := At();
      ok := FlushLan();
      ghost var p1 := At();
      GoesKeeps(p0, p1, {LanIfaces});
      GoesLater(p0, p1, {LanIfaces});
      LanPresent(sets);
      if !ok { return; }
      ok := AddLans(p);
      GoesTwice(p0, p1, At(), {LanIfaces}, {LanIfaces}, {LanIfaces});
      LanMovesTwice(p0.log, p1.log, log);
      GoesLater(p1, At(), {LanIfaces});
    }

    method AddLans(p: Policy) returns (ok: bool)
      requires Valid() && alive && Now(log).policy == p && LanFree(Now(log))
      requires LanTracked(Now(log)) && Now(log).placed == 0
      modifies `sets, `log, `alive
      ensures Valid() && Goes(old(At()), At(), {LanIfaces}) && LanMoves(old(log), log)
      ensures ok ==> alive && LanTracked(Now(log)) && Now(log).placed == |Lan(p)|
      ensures NoReload(old(log), log) ==> Now(log).since == old(Now(log)).since
      ensures !ok && alive && AllPresent(old(sets)) ==> log.failed
    {
      hide Valid, Goes, LanFree, LanTracked, Lan, AllPresent;
      ghost var p0 := At();
      GoesSame(p0, {LanIfaces});
      for i := 0 to |Lan(p)|
        invariant Valid() && Goes(p0, At(), {LanIfaces}) && LanMoves(p0.log, log) && alive
        invariant LanTracked(Now(log)) && Now(log).placed == i && Now(log).policy == p && LanFree(Now(log))
        invariant NoReload(p0.log, log) ==> Now(log).since == Now(p0.log).since
      {
        ghost var q := At();
        ok := AddLan(Lan(p)[i]);
        GoesTwice(p0, q, At(), {LanIfaces}, {LanIfaces}, {LanIfaces});
        LanMovesTwice(p0.log, q.log, log);
        GoesLater(p0, q, {LanIfaces});
        GoesLater(q, At(), {LanIfaces});
        GoesKeeps(p0, At(), {LanIfaces});
        LanPresent(sets);
        if !ok { return; }
      }
      ok := true;
    }

    method AddMac(p: Policy, i: nat) returns (ok: bool)
      requires Valid() && i < |p.macs| && (alive ==> Now(log).policy == p && LanReady(Now(log)))
      modifies `sets, `log, `alive
      ensures Valid() && Goes(old(At()), At(), DEVICES)
      ensures ok ==> alive
      ensures ok && NoReload(old(log), log) ==>
        PlusAt(old(sets), sets, {EnabledMac, MacV6Set(p)}, Canon(p.macs[i]))
      ensures !ok && alive && AllPresent(old(sets)) ==> log.failed
    {
      hide Valid, Goes, LanReady, AllPresent, PlusAt;
      ghost var p0 := At();
      ok := AddOne(p, EnabledMac, p.macs[i]);
      ghost var p1 := At();
      GoesKeeps(p0, p1, DEVICES);
      if !ok { return; }
      GoesSteady(p0, p1, DEVICES);
      GoesLater(p0, p1, DEVICES);
      ok := AddOne(p, MacV6Set(p), p.macs[i]);
      GoesTwice(p0, p1, At(), DEVICES, DEVICES, DEVICES);
      GoesLater(p1, At(), DEVICES);
      if ok && NoReload(p0.log, log) {
        PlusTwice(p0.sets, p1.sets, sets, EnabledMac, MacV6Set(p), Canon(p.macs[i]));
      }
    }

    /** One element for one device set, as one of the steps of apply. */
    method AddOne(p: Policy, n: SetName, l: Literal) returns (ok: bool)
      requires Valid() && IsDevice(n) && l in Literals(p, n) && (alive ==> Now(log).policy == p && LanReady(Now(log)))
      modifies `sets, `log, `alive
      ensures Valid() && Goes(old(At()), At(), DEVICES)
      ensures ok ==> alive
      ensures ok && NoReload(old(log), log) ==> PlusAt(old(sets), sets, {n}, Canon(l))
      ensures !ok && alive && AllPresent(old(sets)) ==> log.failed
    {
      hide Valid, Goes, LanReady, Literals, PlusAt;
      ghost var p0 := At();
      AllAre();
      ghost var mid;
      ok, mid := Add(n, l);
      GoesWider(p0, At(), {n}, DEVICES);
      GoesKeeps(p0, At(), DEVICES);
      AddIsPlus(p0, mid, n, l);
    }

    method ApplyMacs(p: Policy) returns (ok: bool)
      requires Valid() && (alive ==> Now(log).policy == p && LanReady(Now(log)))
      modifies `sets, `log, `alive
      ensures Valid() && Goes(old(At()), At(), DEVICES)
      ensures ok && alive && NoReload(old(log), log) ==> DevicePlus(sets, old(sets), Part(p, |p.macs|, 0))
      ensures !ok && alive && AllPresent(old(sets)) ==> log.failed
    {
      hide Valid, Goes, LanReady, AllPresent, PlusAt, DevicePlus, Part;
      ghost var p0 := At();
      GoesSame(p0, DEVICES);
      PlusNothing(sets, p);
      for i := 0 to |p.macs|
        invariant Valid() && Goes(p0, At(), DEVICES)
        invariant alive ==> Now(log).policy == p && LanReady(Now(log))
        invariant alive && NoReload(p0.log, log) ==> DevicePlus(sets, p0.sets, Part(p, i, 0))
      {
        ghost var q := At();
        GoesKeeps(p0, q, DEVICES);
        var added := AddMac(p, i);
        GoesTwice(p0, q, At(), DEVICES, DEVICES, DEVICES);
        GoesLater(p0, q, DEVICES);
        GoesLater(q, At(), DEVICES);
        GoesSteady(q, At(), DEVICES);
        if !added { return false; }
        if NoReload(p0.log, log) { MacStep(p, i, p0.sets, q.sets, sets); }
      }
      ok := true;
    }

    method AddIp(p: Policy, j: nat) returns (ok: bool)
      requires Valid() && j < |p.ips| && ValidIp(p.ips[j]) && (alive ==> Now(log).policy == p && LanReady(Now(log)))
      modifies `sets, `log, `alive
      ensures Valid() && Goes(old(At()), At(), DEVICES)
      ensures ok ==> alive
      ensures ok && NoReload(old(log), log) ==> PlusAt(old(sets), sets, {IpSet(p, p.ips[j])}, Canon(p.ips[j]))
      ensures !ok && alive && AllPresent(old(sets)) ==> log.failed
    {
      hide Valid, Goes, LanReady, AllPresent, PlusAt;
      OfKindFrom(p.ips, V4);
      OfKindFrom(p.ips, V6);
      assert p.ips[j] in p.ips;
      ok := AddOne(p, IpSet(p, p.ips[j]), p.ips[j]);
    }

    method ApplyIps(p: Policy, ghost base: Sets) returns (ok: bool)
      requires Valid() && (forall l | l in p.ips :: ValidIp(l))
      requires alive ==> Now(log).policy == p && LanReady(Now(log))
      modifies `sets, `log, `alive
      ensures Valid() && Goes(old(At()), At(), DEVICES)
      ensures ok && alive && NoReload(old(log), log) && DevicePlus(old(sets), base, Part(p, |p.macs|, 0))
              ==> DevicePlus(sets, base, p)
      ensures !ok && alive && AllPresent(old(sets)) ==> log.failed
    {
      hide Valid, Goes, LanReady, AllPresent, PlusAt, DevicePlus, Part;
      ghost var p0 := At();
      GoesSame(p0, DEVICES);
      for j := 0 to |p.ips|
        invariant Valid() && Goes(p0, At(), DEVICES)
        invariant alive ==> Now(log).policy == p && LanReady(Now(log))
        invariant alive && NoReload(p0.log, log) && DevicePlus(p0.sets, base, Part(p, |p.macs|, 0))
                  ==> DevicePlus(sets, base, Part(p, |p.macs|, j))
      {
        ghost var q := At();
        GoesKeeps(p0, q, DEVICES);
        assert p.ips[j] in p.ips;
        var added := AddIp(p, j);
        GoesTwice(p0, q, At(), DEVICES, DEVICES, DEVICES);
        GoesLater(p0, q, DEVICES);
        GoesLater(q, At(), DEVICES);
        GoesSteady(q, At(), DEVICES);
        if !added { return false; }
        if NoReload(p0.log, log) && DevicePlus(p0.sets, base, Part(p, |p.macs|, 0)) {
          IpStep(p, j, base, q.sets, sets);
        }
      }
      PlusAll(p);
      ok := true;
    }

    /** The devices of a policy whose interfaces have been written. */
    method ApplyDevices(p: Policy) returns (ok: bool)
      requires Valid() && ValidInputs(p) && (alive ==> Now(log).policy == p && LanReady(Now(log)))
      modifies `sets, `log, `alive
      ensures Valid() && Goes(old(At()), At(), DEVICES)
      ensures ok && alive && NoReload(old(log), log) ==> DevicePlus(sets, old(sets), p)
      ensures !ok && alive && AllPresent(old(sets)) ==> log.failed
    {
      hide Valid, Goes, LanReady, AllPresent, DevicePlus, Part, ValidIp;
      ghost var p0 := At();
      ok := ApplyMacs(p);
      ghost var p1 := At();
      GoesKeeps(p0, p1, DEVICES);
      if !ok { return; }
      GoesSteady(p0, p1, DEVICES);
      GoesLater(p0, p1, DEVICES);
      ok := ApplyIps(p, p0.sets);
      GoesTwice(p0, p1, At(), DEVICES, DEVICES, DEVICES);
      GoesLater(p1, At(), DEVICES);
    }

    /**
     * The part of apply_inner after validation, for the policy that was read. Undisturbed, it leaves exactly that
     * policy on top of what its clear could not remove.
     */
    method ApplyPolicy(p: Policy) returns (ok: bool, ghost lost: set<SetName>, ghost denied: set<SetName>)
      requires Valid() && p == uci && ValidInputs(p)
      modifies `sets, `log, `alive
      ensures Valid() && Goes(old(At()), At(), POLICY)
      ensures ok && alive ==> Now(log).policy == p && LanReady(Now(log))
      ensures ok && alive && !log.lostFlush ==> !Now(log).tainted
      ensures ok && alive && NoReload(old(log), log) ==>
        && ClearSucceeds(old(sets), lost, denied) && DevicePlus(sets, AfterClear(old(sets), lost), p)
        && Content(sets, LanIfaces) == Expected(p, LanIfaces)
      ensures !ok && alive && AllPresent(old(sets)) ==> log.failed || !NoReload(old(log), log)
    {
      hide Valid, Goes, LanTracked, LanFree, AllPresent, DevicePlus, ValidInputs, Expected, AfterClear, ClearSucceeds,
           SameDevices;
      ghost var p0 := At();
      ok, lost, denied := ClearFor(p);
      ghost var p1 := At();
      GoesKeeps(p0, p1, POLICY);
      if !ok { return; }
      ok := ApplyLan(p);
      ghost var p2 := At();
      GoesTwice(p0, p1, p2, POLICY, {LanIfaces}, POLICY);
      GoesKeeps(p0, p2, POLICY);
      GoesLater(p0, p1, POLICY);
      GoesLater(p1, p2, {LanIfaces});
      if !ok { return; }
      ok := ApplyDevices(p);
      GoesTwice(p0, p2, At(), POLICY, DEVICES, POLICY);
      GoesSteady(p2, At(), DEVICES);
      GoesLater(p2, At(), DEVICES);
      if ok && alive && NoReload(p0.log, log) {
        DevicesOnBase(p1, p2, sets, AfterClear(p0.sets, lost), p);
        HeldNow();
        LanWritten(Now(log));
      }
    }

    method ApplyInner() returns (ok: bool, ghost lost: set<SetName>, ghost denied: set<SetName>)
      requires Valid()
      modifies `sets, `log, `alive
      ensures Valid() && Goes(old(At()), At(), POLICY)
      ensures ok ==> NamesDevice(uci) && ValidInputs(uci)
      ensures ok && alive ==> Now(log).policy == uci
      ensures ok && alive && !log.lostFlush ==> !Now(log).tainted
      // what is in force is the policy and what clear left, and so the policy itself unless clear was lied to
      ensures ok && alive && NoReload(old(log), log) ==>
        && ClearSucceeds(old(sets), lost, denied) && DevicePlus(sets, AfterClear(old(sets), lost), uci)
        && Content(sets, LanIfaces) == Expected(uci, LanIfaces)
        && (!Now(log).tainted ==> InForce(sets, uci))
      ensures !ok && alive && NamesDevice(uci) && ValidInputs(uci) && AllPresent(old(sets))
              ==> log.failed || !NoReload(old(log), log)
    {
      hide Valid, Goes, LanReady, AllPresent, DevicePlus, Expected, AfterClear, ClearSucceeds, InForce, DeviceExact,
           DevicesInForce, Within, ValidInputs;
      ghost var p0 := At();
      GoesSame(p0, POLICY);
      lost, denied := {}, {};
      var p := uci;
      if p.macs == [] && p.ips == [] { return false, lost, denied; }
      if !ValidInputs(p) { return false, lost, denied; }
      ok, lost, denied := ApplyPolicy(p);
      if ok && alive && NoReload(p0.log, log) {
        HeldNow();
        LeftoverDecides(AfterClear(p0.sets, lost), sets, p);
        InForceIsExact(sets, p);
      }
    }

    // ---- verify ----

    /** set_elements_json, the two counts, and one native query for all literals. */
    method VerifyExactSet(n: SetName, expected: seq<Literal>) returns (ok: bool)
      requires Valid()
      modifies `sets, `log, `alive
      ensures Valid() && Goes(old(At()), At(), {})
      ensures ok ==> alive
      ensures ok && Calm(old(log), log) ==> n in sets && Accepts(sets[n], expected)
      ensures !ok && alive && !log.misread && Calm(old(log), log) ==> n !in sets || !Accepts(sets[n], expected)
    {
      hide Valid, Goes;
      ghost var p0 := At();
      var listed := Lists(n);
      ghost var p1 := At();
      GoesLater(p0, p1, {});
      if !listed { return false; }
      var size := |sets[n]|;
      if size != |expected| { return false; }
      if |expected| == 0 { return true; }
      ok := Query(n, s => forall l | l in expected :: Canon(l) in s);
      GoesTwice(p0, p1, At(), {}, {}, {});
      GoesLater(p1, At(), {});
      if Calm(p0.log, log) { CalmIsSame(p1, At()); }
    }

    method SetsReady() returns (ok: bool)
      requires Valid()
      modifies `sets, `log, `alive
      ensures Valid() && Goes(old(At()), At(), {})
      ensures ok && alive ==> AllPresent(sets)
      ensures !ok && alive && !log.misread && NoReload(old(log), log) ==> !AllPresent(sets)
    {
      hide Valid, Goes;
      ghost var p0 := At();
      ok := true;
      GoesSame(p0, {});
      AllAre();
      for k := 0 to |ALL_SETS|
        invariant Valid() && Goes(p0, At(), {})
        invariant ok && alive ==> forall j | 0 <= j < k :: ALL_SETS[j] in sets
        invariant !ok && alive && !log.misread && NoReload(p0.log, log) ==> !AllPresent(sets)
      {
        ghost var q := At();
        var present := Lists(ALL_SETS[k]);
        GoesTwice(p0, q, At(), {}, {}, {});
        GoesLater(p0, q, {});
        GoesLater(q, At(), {});
        GoesKeys(q, At(), {});
        if !present { ok := false; }
      }
    }

    method TargetReady(n: SetName) returns (ok: bool)
      requires Valid()
      modifies `sets, `log, `alive
      ensures Valid() && Goes(old(At()), At(), {})
      ensures ok ==> alive && n in sets && sets[n] != {}
      ensures !ok && alive && !log.misread && Calm(old(log), log) ==> n !in sets || sets[n] == {}
    {
      hide Valid, Goes;
      ghost var p0 := At();
      ok := Lists(n);
      ghost var p1 := At();
      GoesLater(p0, p1, {});
      if !ok { return; }
      ok := Query(n, s => s != {});
      GoesTwice(p0, p1, At(), {}, {}, {});
      GoesLater(p1, At(), {});
    }

    method TargetsReady() returns (ok: bool)
      requires Valid()
      modifies `sets, `log, `alive
      ensures Valid() && Goes(old(At()), At(), {})
      ensures ok ==> alive
      ensures ok && Calm(old(log), log) ==> TargetsPresent(sets)
      ensures !ok && alive && !log.misread && Calm(old(log), log) ==> !TargetsPresent(sets)
    {
      hide Valid, Goes;
      ghost var p0 := At();
      ok := Lists(TargetV4);
      ghost var p1 := At();
      GoesLater(p0, p1, {});
      if !ok { return; }
      ok := Lists(TargetV6);
      ghost var p2 := At();
      GoesTwice(p0, p1, p2, {}, {}, {});
      GoesLater(p1, p2, {});
      if Calm(p0.log, log) { CalmIsSame(p1, p2); }
      if !ok { return; }
      ok := EitherTargetReady();
      GoesTwice(p0, p2, At(), {}, {}, {});
      GoesLater(p2, At(), {});
      if Calm(p0.log, log) { CalmIsSame(p2, At()); CalmIsSame(p1, p2); }
    }

    method EitherTargetReady() returns (ok: bool)
      requires Valid()
      modifies `sets, `log, `alive
      ensures Valid() && Goes(old(At()), At(), {})
      ensures ok ==> alive
      ensures ok && Calm(old(log), log) ==> Content(sets, TargetV4) != {} || Content(sets, TargetV6) != {}
      ensures !ok && alive && !log.misread && Calm(old(log), log)
              ==> Content(sets, TargetV4) == {} && Content(sets, TargetV6) == {}
    {
      hide Valid, Goes;
      ghost var p0 := At();
      ok := TargetReady(TargetV4);
      ghost var p1 := At();
      GoesLater(p0, p1, {});
      if ok { return; }
      ok := TargetReady(TargetV6);
      GoesTwice(p0, p1, At(), {}, {}, {});
      GoesLater(p1, At(), {});
      if Calm(p0.log, log) { CalmIsSame(p1, At()); }
    }

    /** The sets that verify compares, one after the other. */
    method VerifyPolicySets(p: Policy) returns (ok: bool)
      requires Valid()
      modifies `sets, `log, `alive
      ensures Valid() && Goes(old(At()), At(), {})
      ensures ok && Calm(old(log), log) ==> forall n | Verified(n) :: n in sets && Accepts(sets[n], Literals(p, n))
      ensures !ok && alive && !log.misread && Calm(old(log), log)
              ==> exists n :: Verified(n) && (n !in sets || !Accepts(sets[n], Literals(p, n)))
    {
      hide Valid, Goes, Literals, Accepts;
      var compared := DEVICE + [LanIfaces];
      ComparedAreVerified();
      ghost var p0 := At();
      GoesSame(p0, {});
      for k := 0 to |compared|
        invariant Valid() && Goes(p0, At(), {})
        invariant Calm(p0.log, log) ==>
          forall j | 0 <= j < k :: compared[j] in sets && Accepts(sets[compared[j]], Literals(p, compared[j]))
      {
        ghost var q := At();
        var exact := VerifyExactSet(compared[k], Literals(p, compared[k]));
        GoesTwice(p0, q, At(), {}, {}, {});
        GoesLater(p0, q, {});
        GoesLater(q, At(), {});
        if Calm(p0.log, log) { CalmIsSame(q, At()); }
        if !exact {
          assert compared[k] in compared;
          return false;
        }
      }
      ok := true;
    }

    method Verify() returns (ok: bool)
      requires Valid()
      modifies `sets, `log, `alive
      ensures Valid() && Goes(old(At()), At(), {})
      ensures ok && alive && Calm(old(log), log) ==> VerifyPasses(sets, uci)
      ensures !ok && alive && !log.misread && Calm(old(log), log) ==> !VerifyPasses(sets, uci)
    {
      hide Valid, Goes, Accepts, Literals, ValidInputs, AllPresent, TargetsPresent;
      ghost var p0 := At();
      ok := SetsReady();
      ghost var p1 := At();
      GoesLater(p0, p1, {});
      if !ok { return; }
      ok := TargetsReady();
      ghost var p2 := At();
      GoesTwice(p0, p1, p2, {}, {}, {});
      GoesLater(p1, p2, {});
      if Calm(p0.log, p2.log) { CalmIsSame(p1, p2); }
      if !ok { return; }
      var p := uci;
      if !ValidInputs(p) { return false; }
      if p.macs == [] && p.ips == [] { return false; }
      ok := VerifyPolicySets(p);
      GoesTwice(p0, p2, At(), {}, {}, {});
      GoesLater(p2, At(), {});
      if Calm(p0.log, log) { CalmIsSame(p2, At()); }
    }

    // ---- apply_and_mark ----

    /** With nothing failing, only two spellings of one address keep apply from succeeding. */
    ghost predicate MayApply(before: Sets)
      reads `uci
    {
      AllPresent(before) && TargetsPresent(before) && NamesDevice(uci) && ValidInputs(uci) && Unaliased(uci)
    }

    method ApplyAndVerify() returns (ok: bool)
      requires Valid()
      modifies `sets, `log, `alive
      ensures Valid() && Goes(old(At()), At(), POLICY)
      ensures ok && alive && Calm(old(log), log) ==>
        VerifyPasses(sets, uci) && (!Now(log).tainted ==> InForce(sets, uci))
      ensures ok && alive ==> Now(log).policy == uci
      ensures ok && alive && !log.lostFlush ==> !Now(log).tainted
      ensures !ok && alive && !log.lostFlush && !log.failed && !log.misread && Calm(old(log), log)
              ==> !MayApply(old(sets))
    {
      hide Valid, Goes, ValidInputs, VerifyPasses, InForce, Unaliased, AllPresent, TargetsPresent, Expected,
           DevicePlus, AfterClear, ClearSucceeds;
      ghost var p0 := At();
      ghost var lost, denied;
      ok, lost, denied := ApplyInner();
      ghost var p1 := At();
      GoesLater(p0, p1, POLICY);
      GoesTargets(p0, p1, POLICY);
      if !ok { return; }
      ok := Verify();
      GoesTwice(p0, p1, At(), POLICY, {}, POLICY);
      GoesLater(p1, At(), {});
      GoesSteady(p1, At(), {});
      if Calm(p0.log, log) {
        CalmIsSame(p1, At());
        if ok && alive { ExactNow(); }
        if !ok && alive && !log.lostFlush && AllPresent(sets) && TargetsPresent(sets) {
          InForceIsExact(sets, uci);
          ExactVerifies(sets, uci);
        }
      }
    }

    /** What is verified, and of this policy, is this policy. */
    lemma ExactNow()
      requires Valid() && VerifyPasses(sets, uci) && Now(log).policy == uci
      ensures !Now(log).tainted ==> InForce(sets, uci)
    {
      HeldNow();
      hide Accepts, Literals, Distinct, InForce, DevicesInForce, ValidInputs;
      if !Now(log).tainted {
        forall n | IsDevice(n) ensures Content(sets, n) == Expected(uci, n) {
          assert Verified(n);
          AcceptedWithinIsExact(sets, uci, n);
        }
        assert Verified(LanIfaces);
        LanAccepted(sets, uci);
        InForceIsExact(sets, uci);
      }
    }

    lemma LanAccepted(sets: Sets, p: Policy)
      requires ValidInputs(p) && LanIfaces in sets && Accepts(sets[LanIfaces], Literals(p, LanIfaces))
      ensures Content(sets, LanIfaces) == Expected(p, LanIfaces)
    {
      hide Distinct, Accepts, ValidInputs;
      ValidationGivesDistinct(p);
      AcceptedIsExact(sets[LanIfaces], Lan(p));
    }

    /** What a command does after it failed: no interception, no claim of it. */
    method GiveUp()
      requires Valid()
      modifies `sets, `log, `alive, `markers
      ensures Valid() && Goes(old(At()), At(), DEVICES)
      ensures markers == old(markers) || markers == old(markers) - {NftApplied}
      ensures alive && !log.lostFlush ==> DeviceEmpty(sets)
      ensures alive && !log.lostMarker ==> NftApplied !in markers
    {
      hide Valid, Goes, DeviceEmpty, AfterClear, ClearSucceeds, SameDevices;
      ghost var p0 := At();
      var cleared, lost, denied := Clear();
      ghost var p1 := At();
      var removed := RemoveMarker(NftApplied);
      GoesTwice(p0, p1, At(), DEVICES, {}, DEVICES);
      GoesLater(p1, At(), {});
      NoDevices();
      GoesKeeps(p1, At(), {});
    }

    method ApplyAndMark() returns (ok: bool)
      requires Valid()
      modifies `sets, `log, `alive, `markers
      ensures Valid() && Goes(old(At()), At(), POLICY)
      ensures OnlyMarkers(old(markers), markers, {NftApplied})
      // success: the policy is in force, verified and marked
      ensures ok && alive ==> NftApplied in markers
      ensures ok && alive && Calm(old(log), log) ==>
        VerifyPasses(sets, uci) && (!Now(log).tainted ==> InForce(sets, uci))
      ensures ok && alive && !log.lostFlush ==> !Now(log).tainted
      // failure: no device is intercepted and nothing claims so, as far as flushes and removals went through
      ensures !ok && alive && !log.lostFlush ==> DeviceEmpty(sets)
      ensures !ok && alive && !log.lostMarker ==> NftApplied !in markers
      // and with no fault, failure is the policy's own
      ensures !ok && alive && !log.lostFlush && !log.failed && !log.misread && Calm(old(log), log)
              ==> !MayApply(old(sets))
    {
      hide Valid, Goes, VerifyPasses, InForce, DeviceEmpty, MayApply;
      ghost var p0 := At();
      ok := ApplyAndVerify();
      ghost var p1 := At();
      GoesLater(p0, p1, POLICY);
      if ok {
        ok := WriteMarker(NftApplied);
        GoesTwice(p0, p1, At(), POLICY, {}, POLICY);
        GoesLater(p1, At(), {});
        GoesSteady(p1, At(), {});
        if Calm(p0.log, log) {
          CalmIsSame(p1, At());
          if ok && alive { ExactNow(); }
        }
      }
      ghost var p2 := At();
      if !ok {
        GiveUp();
        GoesTwice(p0, p2, At(), POLICY, DEVICES, POLICY);
        GoesLater(p2, At(), DEVICES);
        GoesLater(p0, p2, POLICY);
      }
    }

    // ---- refresh_targets ----

    ghost predicate TargetsAre(resolve: Resolver)
      reads `sets, `uci
    {
      && TargetV4 in sets && sets[TargetV4] == Resolved(uci.hosts, resolve, V4)
      && TargetV6 in sets && sets[TargetV6] == Resolved(uci.hosts, resolve, V6)
    }

    /** What a refresh leaves behind, whichever way it ended: the old targets or the new ones. */
    ghost predicate AllOrNothing(before: Sets, resolve: Resolver)
      reads `sets, `uci
    {
      SameTargets(sets, before) || (ResolverOk(uci.hosts, resolve) && TargetsAre(resolve))
    }

    /** The records of a refresh that found addresses of these families. */
    ghost predicate RecordedAs(any4: bool, any6: bool)
      reads `markers, `lastRefresh, `clock
    {
      && RefreshOk in markers && lastRefresh == Some(clock)
      && (TargetV4Required in markers <==> any4) && (TargetV6Required in markers <==> any6)
    }

    /** fail_refresh: the target sets stay, interception goes. */
    method FailRefresh()
      requires Valid()
      modifies `sets, `log, `alive, `markers
      ensures Valid() && Goes(old(At()), At(), DEVICES)
      ensures OnlyMarkers(old(markers), markers, {NftApplied, RefreshOk}) && markers <= old(markers)
      ensures alive && !log.lostFlush ==> DeviceEmpty(sets)
      ensures alive && !log.lostMarker ==> NftApplied !in markers && RefreshOk !in markers
    {
      hide Valid, Goes, DeviceEmpty, AfterClear, ClearSucceeds, SameDevices;
      ghost var p0 := At();
      var removed := RemoveMarker(RefreshOk);
      ghost var p1 := At();
      removed := RemoveMarker(NftApplied);
      ghost var p2 := At();
      GoesTwice(p0, p1, p2, {}, {}, DEVICES);
      GoesLater(p1, p2, {});
      var cleared, lost, denied := Clear();
      GoesTwice(p0, p2, At(), DEVICES, DEVICES, DEVICES);
      GoesLater(p2, At(), DEVICES);
    }

    method MarkFamily(m: Marker, present: bool) returns (ok: bool)
      requires Valid()
      modifies `sets, `log, `alive, `markers
      ensures Valid() && Goes(old(At()), At(), {})
      ensures OnlyMarkers(old(markers), markers, {m})
      ensures ok ==> alive && (m in markers <==> present)
      ensures !ok && alive ==> log.failed
    {
      hide Valid, Goes;
      if present { ok := WriteMarker(m); } else { ok := RemoveMarker(m); }
    }

    method MarkFamilies(any4: bool, any6: bool) returns (ok: bool)
      requires Valid()
      modifies `sets, `log, `alive, `markers
      ensures Valid() && Goes(old(At()), At(), {})
      ensures OnlyMarkers(old(markers), markers, {TargetV4Required, TargetV6Required})
      ensures ok ==> alive && (TargetV4Required in markers <==> any4) && (TargetV6Required in markers <==> any6)
      ensures !ok && alive ==> log.failed
    {
      hide Valid, Goes;
      ghost var p0 := At();
      ok := MarkFamily(TargetV4Required, any4);
      ghost var p1 := At();
      if !ok { return; }
      ok := MarkFamily(TargetV6Required, any6);
      GoesTwice(p0, p1, At(), {}, {}, {});
    }

    method WriteRefreshTime() returns (ok: bool)
      requires Valid()
      modifies `sets, `log, `alive, `lastRefresh
      ensures Valid() && Goes(old(At()), At(), {})
      ensures ok ==> alive && lastRefresh == Some(clock)
      ensures !ok && alive ==> log.failed
    {
      hide Valid, Goes;
      ok := Succeeds(false);
      if ok { lastRefresh := Some(clock); }
    }

    /** The markers and the time that record a refresh. */
    method RecordRefresh(any4: bool, any6: bool) returns (ok: bool)
      requires Valid()
      modifies `sets, `log, `alive, `markers, `lastRefresh
      ensures Valid() && Goes(old(At()), At(), {})
      ensures OnlyMarkers(old(markers), markers, {TargetV4Required, TargetV6Required, RefreshOk})
      ensures ok ==> alive && RecordedAs(any4, any6)
      ensures !ok && alive ==> log.failed
    {
      hide Valid, Goes;
      ghost var p0 := At();
      ok := MarkFamilies(any4, any6);
      ghost var p1 := At();
      if !ok { return; }
      ok := WriteRefreshTime();
      ghost var p2 := At();
      GoesTwice(p0, p1, p2, {}, {}, {});
      if !ok { return; }
      ok := WriteMarker(RefreshOk);
      GoesTwice(p0, p2, At(), {}, {}, {});
    }

    /** From the check of the new sets on. */
    method CheckAndRecord(any4: bool, any6: bool) returns (ok: bool)
      requires Valid()
      modifies `sets, `log, `alive, `markers, `lastRefresh
      ensures Valid() && Goes(old(At()), At(), {})
      ensures OnlyMarkers(old(markers), markers, {TargetV4Required, TargetV6Required, RefreshOk})
      ensures ok ==> alive && RecordedAs(any4, any6)
      ensures !ok && alive && Calm(old(log), log) && TargetsPresent(old(sets)) ==> log.failed || log.misread
    {
      hide Valid, Goes, TargetsPresent, RecordedAs;
      ghost var p0 := At();
      ok := TargetsReady();
      ghost var p1 := At();
      GoesLater(p0, p1, {});
      if Calm(p0.log, log) { CalmIsSame(p0, p1); }
      if !ok { return; }
      ok := RecordRefresh(any4, any6);
      GoesTwice(p0, p1, At(), {}, {}, {});
    }

    /** From the transaction on. */
    method InstallTargets(resolve: Resolver, v4: seq<Literal>, v6: seq<Literal>) returns (ok: bool)
      requires Valid()
      requires CanonSet(v4) == Resolved(uci.hosts, resolve, V4) && CanonSet(v6) == Resolved(uci.hosts, resolve, V6)
      requires CanonSet(v4) != {} || CanonSet(v6) != {}
      modifies `sets, `log, `alive, `markers, `lastRefresh
      ensures Valid() && Goes(old(At()), At(), TARGETS)
      ensures OnlyMarkers(old(markers), markers, {TargetV4Required, TargetV6Required, RefreshOk})
      ensures Calm(old(log), log) ==> TargetsAre(resolve) || sets == old(sets)
      ensures ok ==> alive && RecordedAs(Resolved(uci.hosts, resolve, V4) != {}, Resolved(uci.hosts, resolve, V6) != {})
      ensures ok && Calm(old(log), log) ==> TargetsAre(resolve) && TargetsPresent(sets)
      ensures !ok && alive && AllPresent(old(sets)) && Calm(old(log), log) ==> log.failed || log.misread
    {
      hide Valid, Goes, CanonSet, Resolved, RecordedAs, AllPresent;
      ghost var p0 := At();
      ghost var mid;
      ok, mid := ReplaceTargets(CanonSet(v4), CanonSet(v6));
      ghost var p1 := At();
      GoesLater(p0, mid, {});
      GoesKeeps(p0, mid, {});
      GoesLater(p0, p1, TARGETS);
      TargetsIn(mid.sets);
      if Calm(p0.log, mid.log) { CalmIsSame(p0, mid); }
      if !ok { return; }
      ok := CheckAndRecord(CanonSet(v4) != {}, CanonSet(v6) != {});
      GoesTwice(p0, p1, At(), TARGETS, {}, TARGETS);
      GoesLater(p1, At(), {});
      if Calm(p0.log, log) { CalmIsSame(p1, At()); }
    }

    method ResolveAndInstall(resolve: Resolver) returns (ok: bool)
      requires Valid()
      modifies `sets, `log, `alive, `markers, `lastRefresh
      ensures Valid() && Goes(old(At()), At(), TARGETS)
      ensures OnlyMarkers(old(markers), markers, {TargetV4Required, TargetV6Required, RefreshOk})
      ensures Calm(old(log), log) ==> AllOrNothing(old(sets), resolve)
      ensures ok ==> ResolverOk(uci.hosts, resolve)
      ensures ok ==> RecordedAs(Resolved(uci.hosts, resolve, V4) != {}, Resolved(uci.hosts, resolve, V6) != {})
      ensures ok && Calm(old(log), log) ==> TargetsAre(resolve) && TargetsPresent(sets)
      ensures !ok && alive && !log.failed && !log.misread && AllPresent(old(sets)) && Calm(old(log), log)
              ==> !ResolverOk(uci.hosts, resolve)
    {
      hide Valid, Goes, CanonSet, Resolved, ResolverOk, RecordedAs, TargetsAre, TargetsPresent, AllPresent;
      GoesSame(At(), TARGETS);
      var v4, v6;
      ok, v4, v6 := CollectTargets(uci.hosts, resolve);
      if ok {
        ok := InstallTargets(resolve, v4, v6);
      }
    }

    /**
     * All or nothing: on success the target sets are the union of the answers of every host; on failure they
     * are wholly the old or wholly the new ones, and interception is off. `started` is false when not even a
     * scratch directory could be made, in which case nothing happens at all.
     */
    method RefreshTargets(resolve: Resolver) returns (ok: bool, ghost started: bool)
      requires Valid()
      modifies `sets, `log, `alive, `markers, `lastRefresh
      ensures Valid() && Goes(old(At()), At(), DEVICES + TARGETS)
      ensures OnlyMarkers(old(markers), markers, {NftApplied, TargetV4Required, TargetV6Required, RefreshOk})
      ensures NftApplied in markers ==> NftApplied in old(markers)
      ensures Calm(old(log), log) ==> AllOrNothing(old(sets), resolve)
      ensures ok && alive ==> started && ResolverOk(uci.hosts, resolve)
      ensures ok && alive ==> RecordedAs(Resolved(uci.hosts, resolve, V4) != {}, Resolved(uci.hosts, resolve, V6) != {})
      ensures ok && alive && Calm(old(log), log) ==> TargetsAre(resolve) && TargetsPresent(sets)
      ensures ok && alive && NoReload(old(log), log) ==> SameDevices(old(sets), sets)
      ensures !started ==> !ok && markers == old(markers) && (alive ==> log.failed)
      ensures !started && Calm(old(log), log) ==> sets == old(sets)
      ensures !ok && started && alive && !log.lostMarker ==> NftApplied !in markers && RefreshOk !in markers
      ensures !ok && started && alive && !log.lostFlush ==> DeviceEmpty(sets)
      ensures !ok && alive && !log.failed && !log.misread && AllPresent(old(sets)) && Calm(old(log), log)
              ==> !ResolverOk(uci.hosts, resolve)
    {
      hide Valid, Goes, ResolverOk, Resolved, DeviceEmpty, RecordedAs, TargetsPresent, AllPresent;
      ghost var p0 := At();
      ok := Succeeds(false);
      ghost var p1 := At();
      started := ok;
      GoesLater(p0, p1, {});
      GoesWider(p0, p1, {}, DEVICES + TARGETS);
      GoesKeeps(p0, p1, {});
      if Calm(p0.log, log) { CalmIsSame(p0, p1); }
      if !ok { return; }
      ok := ResolveAndInstall(resolve);
      ghost var p2 := At();
      GoesTwice(p0, p1, p2, DEVICES + TARGETS, TARGETS, DEVICES + TARGETS);
      GoesLater(p1, p2, TARGETS);
      if ok {
        DevicesStay(p0, p1, p2);
      } else {
        FailRefresh();
        GoesTwice(p0, p2, At(), DEVICES + TARGETS, DEVICES, DEVICES + TARGETS);
        GoesLater(p2, At(), DEVICES);
        GoesTargets(p2, At(), DEVICES);
        StillAllOrNothing(p0.sets, p2.sets, resolve, Calm(p2.log, log));
      }
    }

    lemma StillAllOrNothing(before: Sets, middle: Sets, resolve: Resolver, calm: bool)
      requires calm ==> forall n | IsTarget(n) :: (n in sets <==> n in middle) && Content(sets, n) == Content(middle, n)
      ensures calm && (SameTargets(middle, before)
        || (ResolverOk(uci.hosts, resolve)
            && TargetV4 in middle && middle[TargetV4] == Resolved(uci.hosts, resolve, V4)
            && TargetV6 in middle && middle[TargetV6] == Resolved(uci.hosts, resolve, V6)))
        ==> AllOrNothing(before, resolve)
    {
      hide ResolverOk, Resolved;
    }

    // ---- target_refresh_due ----

    /** Whether a family whose marker is there is still populated. */
    method FamilyReady(m: Marker, n: SetName) returns (ok: bool)
      requires Valid()
      modifies `sets, `log, `alive
      ensures Valid() && Goes(old(At()), At(), {})
      ensures ok && alive && Calm(old(log), log) ==> (m in markers ==> n in sets && sets[n] != {})
      ensures !ok && alive && !log.misread && Calm(old(log), log) ==> m in markers && (n !in sets || sets[n] == {})
    {
      hide Valid, Goes;
      GoesSame(At(), {});
      ok := true;
      if m in markers { ok := TargetReady(n); }
    }

    /** target_refresh_due, as its exit status: true means that a refresh is due. */
    method TargetRefreshDue() returns (due: bool)
      requires Valid()
      modifies `sets, `log, `alive
      ensures Valid() && Goes(old(At()), At(), {})
      ensures !due && alive ==> RefreshOk in markers && Age() < REFRESH_INTERVAL
      ensures !due && alive && Calm(old(log), log) ==> Fresh()
      ensures due && alive && !log.misread && Calm(old(log), log) ==> !Fresh()
    {
      hide Valid, Goes;
      ghost var p0 := At();
      GoesSame(p0, {});
      if RefreshOk !in markers || lastRefresh == None { return true; }
      if clock - lastRefresh.value >= REFRESH_INTERVAL { return true; }
      var ready := FamilyReady(TargetV4Required, TargetV4);
      ghost var p1 := At();
      GoesLater(p0, p1, {});
      if !ready { return true; }
      ready := FamilyReady(TargetV6Required, TargetV6);
      ghost var p2 := At();
      GoesTwice(p0, p1, p2, {}, {}, {});
      GoesLater(p1, p2, {});
      if Calm(p1.log, p2.log) { CalmIsSame(p1, p2); }
      if !ready { return true; }
      ready := TargetsReady();
      GoesTwice(p0, p2, At(), {}, {}, {});
      GoesLater(p2, At(), {});
      if Calm(p2.log, log) { CalmIsSame(p2, At()); }
      due := !ready;
    }

    /** The targets were refreshed in time and no family that was there has gone. */
    ghost predicate Fresh()
      reads `markers, `lastRefresh, `clock, `sets
    {
      && RefreshOk in markers && lastRefresh.Some? && clock - lastRefresh.value < REFRESH_INTERVAL
      && (TargetV4Required in markers ==> TargetV4 in sets && sets[TargetV4] != {})
      && (TargetV6Required in markers ==> TargetV6 in sets && sets[TargetV6] != {})
      && TargetsPresent(sets)
    }

    // ---- status ----

    /** The age that status prints: that of time zero when no refresh is recorded, zero when it lies ahead. */
    ghost function Age(): nat
      reads `clock, `lastRefresh
    {
      var last := if lastRefresh.Some? then lastRefresh.value else 0;
      if clock >= last then clock - last else 0
    }

    /** The verdict of `status` when its own queries do not fail. */
    ghost predicate EffectiveEnabled()
      reads `markers, `sets, `uci, `ready, `responding, `clock, `lastRefresh
    {
      && Enabled in markers && Bypass !in markers && NftApplied in markers
      && ready && responding
      && VerifyPasses(sets, uci) && TargetsPresent(sets)
      && RefreshOk in markers && Age() <= REFRESH_INTERVAL
    }

    // ---- bypass ----

    /** `"$0" clear`: a process of its own, which may die and leave its parent alive. */
    method ChildClear() returns (ok: bool)
      requires Valid()
      modifies `sets, `log, `alive
      ensures Valid() && Goes(old(At()), At(), DEVICES) && alive == old(alive)
      ensures ok ==> DeviceEmpty(sets) || (log.lostFlush && log.misread)
      ensures alive && !log.died && !log.lostFlush ==> DeviceEmpty(sets)
      ensures !ok && alive ==> log.failed || log.died || !NoReload(old(log), log)
    {
      hide Valid, DeviceEmpty, AfterClear, ClearSucceeds, SameDevices, Kept, Steady;
      var parent := alive;
      ghost var lost, denied;
      ok, lost, denied := Clear();
      ok := ok && alive;
      alive := parent;
    }

    method BypassOn() returns (ok: bool)
      requires Valid()
      modifies `sets, `log, `alive, `markers
      ensures Valid() && Goes(old(At()), At(), DEVICES)
      ensures OnlyMarkers(old(markers), markers, {NftApplied, Bypass})
      ensures Bypass in old(markers) ==> Bypass in markers
      ensures NftApplied in markers ==> NftApplied in old(markers)
      ensures ok && alive ==> Bypass in markers && NftApplied !in markers
      ensures ok && alive ==> DeviceEmpty(sets) || (log.lostFlush && log.misread)
      ensures !ok && alive ==> log.failed || log.died || !NoReload(old(log), log)
    {
      hide Valid, Goes, DeviceEmpty;
      ghost var p0 := At();
      ok := WriteMarker(Bypass);
      ghost var p1 := At();
      GoesWider(p0, p1, {}, DEVICES);
      if !ok { return; }
      var cleared := ChildClear();
      ghost var p2 := At();
      GoesTwice(p0, p1, p2, DEVICES, DEVICES, DEVICES);
      GoesLater(p0, p1, {});
      GoesLater(p1, p2, DEVICES);
      var removed := RemoveMarker(NftApplied);
      GoesTwice(p0, p2, At(), DEVICES, {}, DEVICES);
      GoesLater(p2, At(), {});
      NoDevices();
      GoesKeeps(p2, At(), {});
      ok := cleared && removed;
    }

    method ChildApply() returns (ok: bool)
      requires Valid()
      modifies `sets, `log, `alive, `markers
      ensures Valid() && Goes(old(At()), At(), POLICY) && alive == old(alive)
      ensures OnlyMarkers(old(markers), markers, {NftApplied})
      ensures ok ==> NftApplied in markers
      ensures ok && Calm(old(log), log) ==>
        VerifyPasses(sets, uci) && (!Now(log).tainted ==> InForce(sets, uci))
    {
      hide Valid, InForce, VerifyPasses, DeviceEmpty, MayApply, Kept, Steady;
      var parent := alive;
      ok := ApplyAndMark();
      ok := ok && alive;
      alive := parent;
    }

    method BypassOff() returns (ok: bool)
      requires Valid()
      modifies `sets, `log, `alive, `markers
      ensures Valid() && Goes(old(At()), At(), POLICY)
      ensures OnlyMarkers(old(markers), markers, {NftApplied, Bypass})
      ensures ok && alive ==> Bypass !in markers
      ensures ok && alive && Enabled in markers && ready ==> NftApplied in markers
      ensures ok && alive && Enabled in markers && ready && Calm(old(log), log) ==>
        VerifyPasses(sets, uci) && (!Now(log).tainted ==> InForce(sets, uci))
      ensures ok && alive && !(Enabled in markers && ready) ==> NftApplied !in markers
      ensures ok && alive && !(Enabled in markers && ready) && Calm(old(log), log) ==> sets == old(sets)
    {
      hide Valid, Goes, InForce, VerifyPasses;
      ghost var p0 := At();
      ok := RemoveMarker(Bypass);
      ghost var p1 := At();
      GoesWider(p0, p1, {}, POLICY);
      if !ok { return; }
      ok := RemoveMarker(NftApplied);
      ghost var p2 := At();
      GoesTwice(p0, p1, p2, {}, {}, {});
      GoesWider(p0, p2, {}, POLICY);
      GoesLater(p0, p2, {});
      if Calm(p0.log, log) { CalmIsSame(p0, p2); }
      if !ok { return; }
      if Enabled in markers && ready {
        ok := ChildApply();
        GoesTwice(p0, p2, At(), POLICY, POLICY, POLICY);
        GoesLater(p2, At(), POLICY);
      }
    }
  }

  // ---- consequences of a piece of a run ----

  lemma GoesLater(a: Point, b: Point, changed: set<SetName>)
    requires Goes(a, b, changed)
    ensures Later(a.log, b.log) && (b.alive ==> a.alive) && (!b.log.died ==> b.alive == a.alive)
  {
    hide Kept, Steady;
  }

  /** One device set, while no command touches it. */
  lemma GoesOne(a: Point, b: Point, n: SetName)
    requires Goes(a, b, {}) && IsDevice(n)
    ensures Later(a.log, b.log) && (b.alive ==> a.alive)
    ensures n in a.sets ==> n in b.sets
    ensures NoReload(a.log, b.log) ==> (n in a.sets <==> n in b.sets) && Content(b.sets, n) == Content(a.sets, n)
    ensures !NoReload(a.log, b.log) ==> Content(b.sets, n) == {} && DeviceEmpty(b.sets)
    ensures DeviceEmpty(a.sets) ==> DeviceEmpty(b.sets)
  {
    GoesLater(a, b, {});
    GoesKeys(a, b, {});
    NoDevices();
    GoesKeeps(a, b, {});
    hide Goes;
  }

  lemma StillEmpty(sets: Sets, n: SetName)
    ensures DeviceEmpty(sets) && n in sets ==> DeviceEmpty(sets[n := {}])
  {
  }

  lemma GoesSteady(a: Point, b: Point, changed: set<SetName>)
    requires Goes(a, b, changed) && LanIfaces !in changed
    ensures LanReady(Now(a.log)) ==> LanReady(Now(b.log))
    ensures Now(b.log).policy == Now(a.log).policy && (Now(b.log).tainted ==> Now(a.log).tainted)
    ensures NoReload(a.log, b.log) ==> Now(b.log).since == Now(a.log).since
  {
    hide Kept, LanReady;
    SteadyReady(a.log, b.log);
  }

  lemma GoesLan(a: Point, b: Point)
    requires Goes(a, b, {})
    ensures LanTracked(Now(a.log)) ==> LanTracked(Now(b.log))
    ensures Now(b.log).policy == Now(a.log).policy && Now(b.log).placed == Now(a.log).placed
    ensures Now(b.log).tainted ==> Now(a.log).tainted
    ensures NoReload(a.log, b.log) ==> Now(b.log).since == Now(a.log).since
    ensures Onward(a.log, b.log)
  {
    hide Kept, LanTracked;
  }

  lemma LanMovesTwice(a: Log, b: Log, c: Log)
    requires LanMoves(a, b) && LanMoves(b, c)
    ensures LanMoves(a, c)
  {
    hide LanFree;
  }

  /** A set that is there stays there. */
  lemma GoesKeys(a: Point, b: Point, changed: set<SetName>)
    requires Goes(a, b, changed)
    ensures forall n | n in a.sets :: n in b.sets
    ensures NoReload(a.log, b.log) ==> b.sets.Keys == a.sets.Keys
    ensures NoReload(a.log, b.log) ==> (AllPresent(b.sets) <==> AllPresent(a.sets))
  {
    hide Later, Steady;
  }

  /** Targets that no command touches stay, while all is calm. */
  lemma GoesTargets(a: Point, b: Point, changed: set<SetName>)
    requires Goes(a, b, changed) && changed !! TARGETS
    ensures Calm(a.log, b.log) ==>
      forall n | IsTarget(n) :: (n in b.sets <==> n in a.sets) && Content(b.sets, n) == Content(a.sets, n)
    ensures Calm(a.log, b.log) ==> (TargetsPresent(b.sets) <==> TargetsPresent(a.sets))
    ensures AllPresent(a.sets) ==> AllPresent(b.sets)
    ensures Calm(a.log, b.log) ==> (AllPresent(b.sets) <==> AllPresent(a.sets))
  {
    hide Later, Steady;
    GoesKeys(a, b, changed);
    forall n | IsTarget(n) ensures n !in changed {
      assert n in TARGETS;
    }
  }

  lemma NoDevices()
    ensures {} !! DEVICES && TARGETS !! DEVICES && DEVICES !! TARGETS && POLICY !! TARGETS
  {
  }

  lemma AddIsPlus(a: Point, mid: Point, n: SetName, l: Literal)
    requires Goes(a, mid, {}) && IsDevice(n)
    ensures NoReload(a.log, mid.log) ==>
      PlusAt(a.sets, mid.sets[n := Content(mid.sets, n) + {Canon(l)}], {n}, Canon(l))
  {
    GoesKeeps(a, mid, {});
    hide Goes;
  }

  lemma LanPresent(sets: Sets)
    ensures AllPresent(sets) ==> LanIfaces in sets
  {
    AllAre();
  }

  lemma TargetsIn(sets: Sets)
    ensures AllPresent(sets) ==> TargetV4 in sets && TargetV6 in sets
  {
    AllAre();
  }

  lemma OtherSets(sets: Sets, n: SetName, e: set<Elem>)
    requires n in sets
    ensures Kept(sets, sets[n := e], {n}, false, false)
  {
  }

  lemma DistinctDevices(k: nat)
    requires k < |DEVICE|
    ensures IsDevice(DEVICE[k]) && DEVICE[k] in DEVICES
    ensures forall j | 0 <= j < |DEVICE| && j != k :: DEVICE[j] != DEVICE[k]
  {
  }

  lemma ComparedAreVerified()
    ensures forall n | Verified(n) :: n in DEVICE + [LanIfaces]
    ensures forall n | n in DEVICE + [LanIfaces] :: Verified(n)
  {
    DeviceIsAll();
    forall n | Verified(n) ensures n in DEVICE + [LanIfaces] {
      if n == LanIfaces {
        assert (DEVICE + [LanIfaces])[6] == n;
      } else {
        var j :| 0 <= j < |DEVICE| && DEVICE[j] == n;
        assert (DEVICE + [LanIfaces])[j] == n;
      }
    }
  }

  /** Undisturbed, devices stay while targets are replaced. */
  lemma DevicesStay(a: Point, b: Point, c: Point)
    requires Goes(a, b, {}) && Goes(b, c, TARGETS)
    ensures NoReload(a.log, c.log) ==> SameDevices(a.sets, c.sets)
  {
    GoesLater(a, b, {});
    GoesLater(b, c, TARGETS);
    SameDevicesAfter(a, b, {});
    SameDevicesAfter(b, c, TARGETS);
  }

  lemma SameDevicesAfter(a: Point, b: Point, changed: set<SetName>)
    requires Goes(a, b, changed) && changed !! DEVICES
    ensures NoReload(a.log, b.log) ==> SameDevices(a.sets, b.sets)
  {
    hide Later, Steady;
    GoesKeys(a, b, changed);
    AllAre();
  }

  /** Interfaces that were written with no reload since are the policy's. */
  lemma LanWritten(s: Snapshot)
    requires LanReady(s) && s.since == None
    ensures Content(s.sets, LanIfaces) == Expected(s.policy, LanIfaces)
  {
    assert Lan(s.policy)[..s.placed] == Lan(s.policy);
  }

  /** The devices, seen from where clear left the sets, when only the interfaces changed in between. */
  lemma DevicesOnBase(cleared: Point, written: Point, sets: Sets, base: Sets, p: Policy)
    requires Goes(cleared, written, {LanIfaces}) && NoReload(cleared.log, written.log)
    requires DevicePlus(sets, written.sets, p) && SameDevices(cleared.sets, base)
    ensures DevicePlus(sets, base, p)
  {
    GoesKeeps(cleared, written, {LanIfaces});
    hide Expected, Goes;
  }

  // ---- clear, set by set ----

  /** Undisturbed, the first k device sets are as clear leaves them and the others as they were. */
  ghost predicate ClearedSoFar(a: Point, b: Point, k: nat, lost: set<SetName>)
    requires k <= |DEVICE|
  {
    NoReload(a.log, b.log) ==>
      && (forall j | 0 <= j < k ::
            Content(b.sets, DEVICE[j]) == if DEVICE[j] in lost then Content(a.sets, DEVICE[j]) else {})
      && (forall j | k <= j < |DEVICE| :: Content(b.sets, DEVICE[j]) == Content(a.sets, DEVICE[j]))
  }

  /** What is left in the first k is due to a lost flush, and a zero status then to a failed listing. */
  ghost predicate LeftSoFar(sets: Sets, l: Log, k: nat, ok: bool)
    requires k <= |DEVICE|
  {
    forall j | 0 <= j < k :: Content(sets, DEVICE[j]) != {} ==> l.lostFlush && (!ok || l.misread)
  }

  lemma ClearedStep(a: Point, b: Point, c: Point, k: nat, lost: set<SetName>, lostThis: bool)
    requires k < |DEVICE| && ClearedSoFar(a, b, k, lost) && Goes(b, c, {DEVICE[k]}) && DEVICE[k] !in lost
    requires Onward(a.log, b.log) && Onward(b.log, c.log)
    requires NoReload(b.log, c.log) ==>
      Content(c.sets, DEVICE[k]) == if lostThis then Content(b.sets, DEVICE[k]) else {}
    ensures ClearedSoFar(a, c, k + 1, if lostThis then lost + {DEVICE[k]} else lost)
  {
    GoesKeeps(b, c, {DEVICE[k]});
    hide Goes, DEVICE;
    OnlyAt(k);
  }

  lemma OnlyAt(k: nat)
    requires k < |DEVICE|
    ensures forall j | 0 <= j < |DEVICE| :: IsDevice(DEVICE[j]) && !IsTarget(DEVICE[j])
    ensures forall j | 0 <= j < |DEVICE| && j != k :: DEVICE[j] != DEVICE[k]
  {
  }

  lemma LeftStep(b: Point, c: Point, k: nat, ok: bool, gone: bool)
    requires k < |DEVICE| && LeftSoFar(b.sets, b.log, k, ok) && Goes(b, c, {DEVICE[k]})
    requires DEVICE[k] in c.sets && c.sets[DEVICE[k]] != {} ==> c.log.lostFlush && (!gone || c.log.misread)
    ensures LeftSoFar(c.sets, c.log, k + 1, ok && gone)
  {
    GoesKeeps(b, c, {DEVICE[k]});
    GoesLater(b, c, {DEVICE[k]});
    hide Goes, DEVICE;
    OnlyAt(k);
  }

  lemma AfterClearIs(sets: Sets, lost: set<SetName>)
    ensures AfterClear(sets, lost).Keys == sets.Keys
    ensures forall n ::
      Content(AfterClear(sets, lost), n) == if IsDevice(n) && n !in lost then {} else Content(sets, n)
  {
  }

  lemma ClearedAll(a: Point, b: Point, lost: set<SetName>)
    requires Goes(a, b, DEVICES) && ClearedSoFar(a, b, |DEVICE|, lost)
    ensures NoReload(a.log, b.log) ==> SameDevices(b.sets, AfterClear(a.sets, lost))
    ensures Calm(a.log, b.log) ==> b.sets == AfterClear(a.sets, lost)
  {
    hide AfterClear, Goes;
    AfterClearIs(a.sets, lost);
    if NoReload(a.log, b.log) {
      DeviceIsAll();
      GoesKeys(a, b, DEVICES);
      hide DEVICE;
      forall n | IsDevice(n) ensures Content(b.sets, n) == Content(AfterClear(a.sets, lost), n) {
        var j :| 0 <= j < |DEVICE| && DEVICE[j] == n;
      }
      if Calm(a.log, b.log) {
        AllAre();
        GoesKeeps(a, b, DEVICES);
        SameEverywhere(b.sets, AfterClear(a.sets, lost));
      }
    }
  }

  lemma SameEverywhere(a: Sets, b: Sets)
    requires a.Keys == b.Keys && forall n :: Content(a, n) == Content(b, n)
    ensures a == b
  {
    forall n | n in a ensures a[n] == b[n] {
      assert Content(a, n) == Content(b, n);
    }
  }

  lemma LeftAll(sets: Sets, l: Log, ok: bool)
    requires LeftSoFar(sets, l, |DEVICE|, ok)
    ensures DeviceEmpty(sets) || (l.lostFlush && (!ok || l.misread))
  {
    DeviceIsAll();
    if n :| n in sets && IsDevice(n) && sets[n] != {} {
      var j :| 0 <= j < |DEVICE| && DEVICE[j] == n;
      assert Content(sets, DEVICE[j]) != {};
    }
  }

  /** An effective policy is the configured one, element for element, unless two literals are one element. */
  lemma EffectiveIsExact(r: Router)
    requires r.EffectiveEnabled() && Unaliased(r.uci)
    ensures InForce(r.sets, r.uci)
  {
    hide DevicesInForce;
    VerifiedIsExact(r.sets, r.uci);
    InForceIsExact(r.sets, r.uci);
  }

  /**
   * When status reports effective, and only then: switched on and not bypassed, with a daemon that is ready and
   * answers, a policy that passes verification behind its marker, and targets from the last 300 seconds.
   */
  lemma EffectiveMeans(r: Router)
    ensures r.EffectiveEnabled() <==>
      && Enabled in r.markers && Bypass !in r.markers && NftApplied in r.markers && RefreshOk in r.markers
      && r.ready && r.responding
      && VerifyPasses(r.sets, r.uci)
      && r.clock <= (if r.lastRefresh.Some? then r.lastRefresh.value else 0) + 300
    ensures r.EffectiveEnabled() ==> TargetsPresent(r.sets) && ValidInputs(r.uci) && NamesDevice(r.uci)
  {
    hide TargetsPresent, ValidInputs, Accepts, Literals;
  }

  /** When the targets are fresh: refreshed less than 300 seconds ago, there, and no family gone that was found. */
  lemma FreshMeans(r: Router)
    ensures r.Fresh() <==>
      && RefreshOk in r.markers && r.lastRefresh.Some? && r.clock < r.lastRefresh.value + 300
      && TargetV4 in r.sets && TargetV6 in r.sets && (r.sets[TargetV4] != {} || r.sets[TargetV6] != {})
      && (TargetV4Required in r.markers ==> r.sets[TargetV4] != {})
      && (TargetV6Required in r.markers ==> r.sets[TargetV6] != {})
  {
  }
}
