/**
 * package/ils-gateway/root/usr/bin/locspoof-watchdog over the router state of module Ctl: the tick that keeps
 * interception in step with policy, targets and daemon health, and the runs that ticks and commands make up.
 */
module Watchdog {
  import opened Bytes
  import opened NftPolicy
  import opened Chronicle
  import opened ApplySteps
  import opened Targets
  import opened Ctl

  const REFRESHES: set<SetName> := DEVICES + TARGETS
  const REFRESH_MARKERS: set<Marker> := {NftApplied, TargetV4Required, TargetV6Required, RefreshOk}

  /** Where the run is, between two ctl processes. */
  ghost function Here(r: Router): Point
    reads r`sets, r`log
  {
    Point(r.sets, r.log, true)
  }

  /** A process of its own ends, in whatever way. */
  lemma ProcessEnds(a: Point, b: Point, changed: set<SetName>)
    requires Goes(a, b, changed) && a.alive
    ensures Goes(a, Point(b.sets, b.log, true), changed)
    ensures !b.log.died ==> b.alive
  {
    hide Kept, Steady, Later;
  }

  // ---- one ctl process each ----

  method CtlClear(r: Router) returns (ok: bool)
    requires r.Valid()
    modifies r`sets, r`log, r`alive
    ensures r.Valid() && Goes(old(Here(r)), Here(r), DEVICES)
    ensures !r.log.died && !r.log.lostFlush ==> DeviceEmpty(r.sets)
  {
    hide Goes, DeviceEmpty, AfterClear, ClearSucceeds, SameDevices;
    r.alive := true;
    ghost var p := r.At();
    ghost var lost, denied;
    ok, lost, denied := r.Clear();
    ProcessEnds(p, r.At(), DEVICES);
    ok := ok && r.alive;
  }

  method CtlSetsReady(r: Router) returns (ok: bool)
    requires r.Valid()
    modifies r`sets, r`log, r`alive
    ensures r.Valid() && Goes(old(Here(r)), Here(r), {})
    ensures ok ==> AllPresent(r.sets)
    ensures !ok && !r.log.died && !r.log.misread && NoReload(old(r.log), r.log) ==> !AllPresent(r.sets)
  {
    hide Goes, AllPresent;
    r.alive := true;
    ghost var p := r.At();
    ok := r.SetsReady();
    ProcessEnds(p, r.At(), {});
    ok := ok && r.alive;
  }

  method CtlTargetsReady(r: Router) returns (ok: bool)
    requires r.Valid()
    modifies r`sets, r`log, r`alive
    ensures r.Valid() && Goes(old(Here(r)), Here(r), {})
    ensures ok && Calm(old(r.log), r.log) ==> TargetsPresent(r.sets)
    ensures !ok && !r.log.died && !r.log.misread && Calm(old(r.log), r.log) ==> !TargetsPresent(r.sets)
  {
    hide Goes, TargetsPresent;
    r.alive := true;
    ghost var p := r.At();
    ok := r.TargetsReady();
    ProcessEnds(p, r.At(), {});
    ok := ok && r.alive;
  }

  /** A refresh is on record that is young enough. */
  ghost predicate Recent(r: Router)
    reads r`markers, r`lastRefresh, r`clock
  {
    RefreshOk in r.markers && r.Age() <= REFRESH_INTERVAL
  }

  /** A process that is killed also reads as "nothing due". */
  method CtlTargetRefreshDue(r: Router) returns (due: bool)
    requires r.Valid()
    modifies r`sets, r`log, r`alive
    ensures r.Valid() && Goes(old(Here(r)), Here(r), {})
    ensures !due && !r.log.died ==> Recent(r)
    ensures !due && !r.log.died && Calm(old(r.log), r.log) ==> r.Fresh()
    ensures due && !r.log.misread && Calm(old(r.log), r.log) ==> !r.Fresh()
  {
    hide Goes;
    r.alive := true;
    ghost var p := r.At();
    due := r.TargetRefreshDue();
    ProcessEnds(p, r.At(), {});
    due := due && r.alive;
  }

  method CtlRefreshTargets(r: Router, resolve: Resolver) returns (ok: bool)
    requires r.Valid()
    modifies r`sets, r`log, r`alive, r`markers, r`lastRefresh
    ensures r.Valid() && Goes(old(Here(r)), Here(r), REFRESHES)
    ensures OnlyMarkers(old(r.markers), r.markers, REFRESH_MARKERS)
    ensures NftApplied in r.markers ==> NftApplied in old(r.markers)
    ensures Calm(old(r.log), r.log) ==> r.AllOrNothing(old(r.sets), resolve)
    ensures ok ==> ResolverOk(r.uci.hosts, resolve) && Recent(r)
    ensures ok && Calm(old(r.log), r.log) ==> r.TargetsAre(resolve) && TargetsPresent(r.sets)
    ensures !ok && Faultless(r.log) && AllPresent(old(r.sets)) && Calm(old(r.log), r.log)
            ==> !ResolverOk(r.uci.hosts, resolve)
  {
    hide Goes, ResolverOk, Resolved, AllPresent, TargetsPresent, Router.TargetsAre;
    r.alive := true;
    ghost var p := r.At();
    ghost var started;
    ok, started := r.RefreshTargets(resolve);
    ProcessEnds(p, r.At(), REFRESHES);
    ok := ok && r.alive;
  }

  method CtlVerify(r: Router) returns (ok: bool)
    requires r.Valid()
    modifies r`sets, r`log, r`alive
    ensures r.Valid() && Goes(old(Here(r)), Here(r), {})
    ensures ok && Calm(old(r.log), r.log) ==> VerifyPasses(r.sets, r.uci)
    ensures !ok && !r.log.died && !r.log.misread && Calm(old(r.log), r.log) ==> !VerifyPasses(r.sets, r.uci)
  {
    hide Goes, VerifyPasses;
    r.alive := true;
    ghost var p := r.At();
    ok := r.Verify();
    ProcessEnds(p, r.At(), {});
    ok := ok && r.alive;
  }

  method CtlApply(r: Router) returns (ok: bool)
    requires r.Valid()
    modifies r`sets, r`log, r`alive, r`markers
    ensures r.Valid() && Goes(old(Here(r)), Here(r), POLICY)
    ensures OnlyMarkers(old(r.markers), r.markers, {NftApplied})
    ensures ok ==> NftApplied in r.markers
    ensures ok && Calm(old(r.log), r.log) ==>
      VerifyPasses(r.sets, r.uci) && (!Now(r.log).tainted ==> InForce(r.sets, r.uci))
    ensures !ok && Faultless(r.log) && Calm(old(r.log), r.log) ==> !r.MayApply(old(r.sets))
  {
    hide Goes, VerifyPasses, InForce, DeviceEmpty, Router.MayApply;
    r.alive := true;
    ghost var p := r.At();
    ok := r.ApplyAndMark();
    ProcessEnds(p, r.At(), POLICY);
    ok := ok && r.alive;
  }

  method CtlBypassOn(r: Router) returns (ok: bool)
    requires r.Valid()
    modifies r`sets, r`log, r`alive, r`markers
    ensures r.Valid() && Goes(old(Here(r)), Here(r), DEVICES)
    ensures OnlyMarkers(old(r.markers), r.markers, {NftApplied, Bypass})
    ensures Bypass in old(r.markers) ==> Bypass in r.markers
    ensures NftApplied in r.markers ==> NftApplied in old(r.markers)
    ensures ok ==> Bypass in r.markers && NftApplied !in r.markers
    ensures ok ==> DeviceEmpty(r.sets) || (r.log.lostFlush && r.log.misread)
    ensures !ok ==> r.log.failed || r.log.died || !NoReload(old(r.log), r.log)
  {
    hide Goes, DeviceEmpty;
    r.alive := true;
    ghost var p := r.At();
    ok := r.BypassOn();
    ProcessEnds(p, r.At(), DEVICES);
    ok := ok && r.alive;
  }

  method CtlBypassOff(r: Router) returns (ok: bool)
    requires r.Valid()
    modifies r`sets, r`log, r`alive, r`markers
    ensures r.Valid() && Goes(old(Here(r)), Here(r), POLICY)
    ensures OnlyMarkers(old(r.markers), r.markers, {NftApplied, Bypass})
    ensures ok ==> Bypass !in r.markers
    ensures ok ==> (NftApplied in r.markers <==> Enabled in r.markers && r.ready)
  {
    hide Goes, VerifyPasses, InForce;
    r.alive := true;
    ghost var p := r.At();
    ok := r.BypassOff();
    ProcessEnds(p, r.At(), POLICY);
    ok := ok && r.alive;
  }

  // ---- the functions of the script ----

  ghost predicate Healthy(r: Router)
    reads r`ready, r`responding
  {
    r.ready && r.responding
  }

  method HealthyDaemon(r: Router) returns (ok: bool)
    ensures ok <==> Healthy(r)
  {
    ok := r.ready && r.responding;
  }

  /** rm -f of a marker by the watchdog itself. */
  method RemoveFile(r: Router, m: Marker)
    requires r.Valid()
    modifies r`log, r`markers
    ensures r.Valid() && Goes(old(Here(r)), Here(r), {}) && Now(r.log) == Now(old(r.log))
    ensures r.log.died == old(r.log).died && r.log.lostFlush == old(r.log).lostFlush && Calm(old(r.log), r.log)
    ensures r.markers == old(r.markers) - {m} || (r.markers == old(r.markers) && r.log.lostMarker)
  {
    hide Goes, Router.Valid;
    GoesSame(Here(r), {});
    var removed: bool := *;
    if removed {
      r.markers := r.markers - {m};
    } else {
      FaultGoes(Here(r), false, false, true, true);
      r.Blame(false, false, true, true);
    }
  }

  /** The failure path of the watchdog: flush, and rm -f of the marker. */
  method ClearSets(r: Router)
    requires r.Valid()
    modifies r`sets, r`log, r`alive, r`markers
    ensures r.Valid() && Goes(old(Here(r)), Here(r), DEVICES)
    ensures r.markers == old(r.markers) || r.markers == old(r.markers) - {NftApplied}
    ensures !r.log.died && !r.log.lostFlush ==> DeviceEmpty(r.sets)
    ensures !r.log.lostMarker ==> NftApplied !in r.markers
  {
    hide Goes, DeviceEmpty, Router.Valid;
    ghost var p0 := Here(r);
    var cleared := CtlClear(r);
    ghost var p1 := Here(r);
    RemoveFile(r, NftApplied);
    GoesTwice(p0, p1, Here(r), DEVICES, {}, DEVICES);
  }

  method ReloadFw4IfNeeded(r: Router) returns (ok: bool)
    requires r.Valid()
    modifies r`sets, r`log, r`alive, r`markers
    ensures r.Valid() && Later(old(r.log), r.log)
    ensures r.markers == old(r.markers) || r.markers == old(r.markers) - {NftApplied}
    ensures ok ==> AllPresent(r.sets)
    ensures !ok && Faultless(r.log) ==> !NoReload(old(r.log), r.log)
  {
    hide Goes, AllPresent, FreshTable, DeviceEmpty, Router.Valid, Extends;
    ghost var p0 := Here(r);
    ok := CtlSetsReady(r);
    ghost var p1 := Here(r);
    GoesLater(p0, p1, {});
    if ok { return; }
    ClearSets(r);
    ghost var p2 := Here(r);
    GoesLater(p1, p2, DEVICES);
    LaterTwice(p0.log, p1.log, p2.log);
    ok := ReloadAndCheck(r);
    LaterTwice(p0.log, p2.log, r.log);
  }

  method ReloadAndCheck(r: Router) returns (ok: bool)
    requires r.Valid()
    modifies r`sets, r`log, r`alive
    ensures r.Valid() && Later(old(r.log), r.log)
    ensures ok ==> AllPresent(r.sets)
    ensures !ok && Faultless(r.log) ==> !NoReload(old(r.log), r.log)
  {
    hide Goes, AllPresent, FreshTable, Router.Valid, Extends, LanFree;
    ghost var l0 := r.log;
    LaterSame(l0);
    ok := *;
    if !ok {
      ghost var p := Here(r);
      FaultGoes(p, false, false, false, true);
      r.Blame(false, false, false, true);
      GoesLater(p, Here(r), {});
      return;
    }
    FreshTableIs();
    r.Reload(false);
    ghost var p1 := Here(r);
    ok := CtlSetsReady(r);
    GoesLater(p1, Here(r), {});
    GoesKeys(p1, Here(r), {});
    LaterTwice(l0, p1.log, r.log);
  }

  /** What holds of the targets when a tick goes on to the policy. */
  ghost predicate TargetsCurrent(r: Router)
    reads r`sets, r`markers, r`lastRefresh, r`clock
  {
    TargetsPresent(r.sets) && Recent(r)
  }

  method RefreshTargetsIfNeeded(r: Router, resolve: Resolver) returns (ok: bool)
    requires r.Valid() && AllPresent(r.sets)
    modifies r`sets, r`log, r`alive, r`markers, r`lastRefresh
    ensures r.Valid() && Goes(old(Here(r)), Here(r), REFRESHES)
    ensures OnlyMarkers(old(r.markers), r.markers, REFRESH_MARKERS)
    ensures AllPresent(r.sets)
    ensures ok && !r.log.died ==> Recent(r)
    ensures ok && !r.log.died && Calm(old(r.log), r.log) ==> TargetsPresent(r.sets)
    ensures !ok && Faultless(r.log) && Calm(old(r.log), r.log) ==> !ResolverOk(r.uci.hosts, resolve)
  {
    hide Goes, ResolverOk, AllPresent, TargetsPresent, Router.Valid, Recent;
    ghost var p0 := Here(r);
    var due := CtlTargetRefreshDue(r);
    ghost var p1 := Here(r);
    GoesWider(p0, p1, {}, REFRESHES);
    GoesKeeps(p0, p1, {});
    if !due { return true; }
    GoesLater(p0, p1, {});
    ok := RefreshAndCheck(r, resolve);
    GoesTwice(p0, p1, Here(r), REFRESHES, REFRESHES, REFRESHES);
    GoesLater(p1, Here(r), REFRESHES);
  }

  method RefreshAndCheck(r: Router, resolve: Resolver) returns (ok: bool)
    requires r.Valid() && AllPresent(r.sets)
    modifies r`sets, r`log, r`alive, r`markers, r`lastRefresh
    ensures r.Valid() && Goes(old(Here(r)), Here(r), REFRESHES)
    ensures OnlyMarkers(old(r.markers), r.markers, REFRESH_MARKERS)
    ensures AllPresent(r.sets)
    ensures ok ==> Recent(r)
    ensures ok && Calm(old(r.log), r.log) ==> TargetsPresent(r.sets)
    ensures !ok && Faultless(r.log) && Calm(old(r.log), r.log) ==> !ResolverOk(r.uci.hosts, resolve)
  {
    hide Goes, ResolverOk, Resolved, AllPresent, TargetsPresent, Router.Valid, Router.TargetsAre, Recent;
    ghost var p0 := Here(r);
    ok := CtlRefreshTargets(r, resolve);
    ghost var p1 := Here(r);
    GoesKeeps(p0, p1, REFRESHES);
    GoesLater(p0, p1, REFRESHES);
    if !ok { return; }
    ok := CtlTargetsReady(r);
    GoesTwice(p0, p1, Here(r), REFRESHES, {}, REFRESHES);
    GoesLater(p1, Here(r), {});
    GoesKeeps(p0, Here(r), REFRESHES);
    if Calm(p0.log, r.log) { CalmIsSame(p1, Here(r)); }
  }

  /**
   * The last part of run_once: verify what is marked, apply what is not. It succeeds only behind the marker, and
   * then with a policy that passes verification, unless the marker could not be removed from one that did not.
   */
  method KeepApplied(r: Router) returns (ok: bool)
    requires r.Valid()
    modifies r`sets, r`log, r`alive, r`markers
    ensures r.Valid() && Goes(old(Here(r)), Here(r), POLICY)
    ensures OnlyMarkers(old(r.markers), r.markers, {NftApplied})
    ensures ok ==> NftApplied in r.markers
    ensures ok && !r.log.lostMarker && Calm(old(r.log), r.log) ==> VerifyPasses(r.sets, r.uci)
    ensures !ok && !r.log.lostMarker ==> NftApplied !in r.markers
    ensures !ok && !r.log.died && !r.log.lostFlush ==> DeviceEmpty(r.sets)
    ensures !ok && Faultless(r.log) && Calm(old(r.log), r.log) ==> !r.MayApply(old(r.sets))
  {
    hide Goes, VerifyPasses, DeviceEmpty, Router.Valid;
    ghost var p0 := Here(r);
    GoesSame(p0, POLICY);
    ok := true;
    if NftApplied in r.markers {
      VerifyOrClear(r);
    }
    ghost var p1 := Here(r);
    if NftApplied !in r.markers {
      ok := ApplyAndRecheck(r);
      GoesTwice(p0, p1, Here(r), POLICY, POLICY, POLICY);
      GoesLater(p0, p1, POLICY);
      GoesLater(p1, Here(r), POLICY);
      GoesTargets(p0, p1, POLICY);
      hide AllPresent, TargetsPresent, ValidInputs, Unaliased;
    }
  }

  /** What is marked and does not pass is taken down, marker included. */
  method VerifyOrClear(r: Router)
    requires r.Valid() && NftApplied in r.markers
    modifies r`sets, r`log, r`alive, r`markers
    ensures r.Valid() && Goes(old(Here(r)), Here(r), POLICY)
    ensures OnlyMarkers(old(r.markers), r.markers, {NftApplied})
    ensures NftApplied in r.markers && !r.log.lostMarker && Calm(old(r.log), r.log) ==> VerifyPasses(r.sets, r.uci)
  {
    hide Goes, VerifyPasses, DeviceEmpty, Router.Valid;
    ghost var p0 := Here(r);
    var verified := CtlVerify(r);
    ghost var p1 := Here(r);
    GoesWider(p0, p1, {}, POLICY);
    if !verified {
      ClearSets(r);
      GoesTwice(p0, p1, Here(r), POLICY, DEVICES, POLICY);
    }
  }

  method ApplyAndRecheck(r: Router) returns (ok: bool)
    requires r.Valid()
    modifies r`sets, r`log, r`alive, r`markers
    ensures r.Valid() && Goes(old(Here(r)), Here(r), POLICY)
    ensures OnlyMarkers(old(r.markers), r.markers, {NftApplied})
    ensures ok ==> NftApplied in r.markers
    ensures ok && Calm(old(r.log), r.log) ==> VerifyPasses(r.sets, r.uci)
    ensures !ok && !r.log.lostMarker ==> NftApplied !in r.markers
    ensures !ok && !r.log.died && !r.log.lostFlush ==> DeviceEmpty(r.sets)
    ensures !ok && Faultless(r.log) && Calm(old(r.log), r.log) ==> !r.MayApply(old(r.sets))
  {
    hide Goes, VerifyPasses, InForce, DeviceEmpty, Router.Valid, Router.MayApply;
    ghost var p0 := Here(r);
    ok := CtlApply(r);
    ghost var p1 := Here(r);
    GoesLater(p0, p1, POLICY);
    if ok {
      if NftApplied in r.markers {
        ok := CtlVerify(r);
        GoesLater(p1, Here(r), {});
        GoesTwice(p0, p1, Here(r), POLICY, {}, POLICY);
        if Calm(p1.log, r.log) { CalmIsSame(p1, Here(r)); }
      } else {
        ok := false;
      }
    }
    ghost var p2 := Here(r);
    if !ok {
      ClearSets(r);
      GoesLater(p0, p2, POLICY);
      GoesLater(p2, Here(r), DEVICES);
      GoesTwice(p0, p2, Here(r), POLICY, DEVICES, POLICY);
    }
  }

  /** Everything a tick needs from the outside to put the policy into force. */
  ghost predicate Ready(r: Router, resolve: Resolver)
    reads r`ready, r`responding, r`uci, r`markers
  {
    && Healthy(r) && Bypass !in r.markers
    && NamesDevice(r.uci) && ValidInputs(r.uci) && Unaliased(r.uci) && ResolverOk(r.uci.hosts, resolve)
  }

  /** run_once past the health and bypass checks. */
  method RunPolicy(r: Router, resolve: Resolver) returns (ok: bool)
    requires r.Valid()
    modifies r`sets, r`log, r`alive, r`markers, r`lastRefresh
    ensures r.Valid() && Later(old(r.log), r.log)
    ensures OnlyMarkers(old(r.markers), r.markers, REFRESH_MARKERS)
    ensures ok ==> NftApplied in r.markers
    ensures ok && !r.log.lostMarker && Calm(old(r.log), r.log) ==> VerifyPasses(r.sets, r.uci)
    ensures ok && !r.log.died ==> Recent(r)
    ensures ok && !r.log.died && Calm(old(r.log), r.log) ==> TargetsPresent(r.sets)
    ensures !ok && !r.log.lostMarker ==> NftApplied !in r.markers
    ensures !ok && !r.log.died && !r.log.lostFlush ==> DeviceEmpty(r.sets)
    ensures Ready(r, resolve) && Faultless(r.log) && Calm(old(r.log), r.log) ==> ok
  {
    hide Goes, VerifyPasses, DeviceEmpty, AllPresent, TargetsPresent, ValidInputs, Unaliased, ResolverOk, Router.Valid,
         Extends, Recent;
    ghost var l0 := r.log;
    ok := ReloadFw4IfNeeded(r);
    ghost var p1 := Here(r);
    if !ok {
      ClearSets(r);
      GoesLater(p1, Here(r), DEVICES);
      LaterTwice(l0, p1.log, r.log);
      return;
    }
    ok := RefreshAndApply(r, resolve);
    LaterTwice(l0, p1.log, r.log);
  }

  /** The tick once every set exists. */
  method RefreshAndApply(r: Router, resolve: Resolver) returns (ok: bool)
    requires r.Valid() && AllPresent(r.sets)
    modifies r`sets, r`log, r`alive, r`markers, r`lastRefresh
    ensures r.Valid() && Later(old(r.log), r.log)
    ensures OnlyMarkers(old(r.markers), r.markers, REFRESH_MARKERS)
    ensures ok ==> NftApplied in r.markers
    ensures ok && !r.log.lostMarker && Calm(old(r.log), r.log) ==> VerifyPasses(r.sets, r.uci)
    ensures ok && !r.log.died ==> Recent(r)
    ensures ok && !r.log.died && Calm(old(r.log), r.log) ==> TargetsPresent(r.sets)
    ensures !ok && !r.log.lostMarker ==> NftApplied !in r.markers
    ensures !ok && !r.log.died && !r.log.lostFlush ==> DeviceEmpty(r.sets)
    ensures Ready(r, resolve) && Faultless(r.log) && Calm(old(r.log), r.log) ==> ok
  {
    hide Goes, VerifyPasses, DeviceEmpty, AllPresent, TargetsPresent, ValidInputs, Unaliased, ResolverOk, Router.Valid,
         Extends;
    ghost var p0 := Here(r);
    ok := RefreshTargetsIfNeeded(r, resolve);
    ghost var p1 := Here(r);
    GoesLater(p0, p1, REFRESHES);
    if !ok {
      ClearSets(r);
      GoesLater(p1, Here(r), DEVICES);
      LaterTwice(p0.log, p1.log, r.log);
      return;
    }
    ok := KeepApplied(r);
    GoesLater(p1, Here(r), POLICY);
    NoDevices();
    GoesTargets(p1, Here(r), POLICY);
    LaterTwice(p0.log, p1.log, r.log);
  }

  /**
   * One tick. When it reports success without bypass, the policy is marked and the daemon healthy, so that `status`
   * agrees exactly when the policy passes verification and the targets are current. Both hold in the end, except
   * for three things: the marker of a policy that did not pass could not be removed, the query that asks whether
   * the targets are stale was killed, or others reloaded the firewall or targets timed out meanwhile.
   */
  method RunOnce(r: Router, resolve: Resolver) returns (ok: bool)
    requires r.Valid()
    modifies r`sets, r`log, r`alive, r`markers, r`lastRefresh
    ensures r.Valid() && Later(old(r.log), r.log)
    ensures OnlyMarkers(old(r.markers), r.markers, REFRESH_MARKERS)
    ensures Enabled !in r.markers ==> ok && r.sets == old(r.sets) && r.markers == old(r.markers)
    ensures Enabled in r.markers ==> AgreesWithStatus(r, ok, Calm(old(r.log), r.log))
    ensures Enabled in r.markers && (!ok || Bypass in r.markers) && !r.log.died && !r.log.lostFlush
            ==> DeviceEmpty(r.sets)
    ensures Enabled in r.markers && Ready(r, resolve) && Faultless(r.log) && Calm(old(r.log), r.log) ==> ok
  {
    hide Goes, VerifyPasses, DeviceEmpty, AllPresent, TargetsPresent, ValidInputs, Unaliased, ResolverOk, Router.Valid,
         Extends;
    LaterSame(r.log);
    if Enabled !in r.markers { return true; }
    ghost var p0 := Here(r);
    var healthy := HealthyDaemon(r);
    if !healthy {
      ClearSets(r);
      GoesLater(p0, Here(r), DEVICES);
      if DeviceEmpty(r.sets) { EmptyFails(r.sets, r.uci); }
      return false;
    }
    if Bypass in r.markers {
      ClearSets(r);
      GoesLater(p0, Here(r), DEVICES);
      return true;
    }
    ok := RunPolicy(r, resolve);
    if DeviceEmpty(r.sets) { EmptyFails(r.sets, r.uci); }
  }

  /** How the verdict of a tick and that of `status` are related. */
  ghost predicate AgreesWithStatus(r: Router, ok: bool, calm: bool)
    reads r`markers, r`sets, r`uci, r`ready, r`responding, r`clock, r`lastRefresh, r`log
  {
    // whatever happened
    && (ok && Bypass !in r.markers ==> (r.EffectiveEnabled() <==> VerifyPasses(r.sets, r.uci) && TargetsCurrent(r)))
    && (!ok && !r.log.lostMarker ==> NftApplied !in r.markers && !r.EffectiveEnabled())
    // while markers could be removed and nobody interfered
    && (!r.log.lostMarker && calm ==> (r.EffectiveEnabled() <==> ok && Bypass !in r.markers && TargetsCurrent(r)))
    // and while no process was killed
    && (!r.log.lostMarker && calm && !r.log.died ==> (r.EffectiveEnabled() <==> ok && Bypass !in r.markers))
    // or, without that, while not both a flush and a removal failed
    && (calm && !r.log.died && !(r.log.lostFlush && r.log.lostMarker) ==>
          (r.EffectiveEnabled() <==> ok && Bypass !in r.markers && VerifyPasses(r.sets, r.uci)))
  }

  /** A policy that names a device expects it in some set. */
  lemma DeviceIsExpected(p: Policy) returns (n: SetName)
    requires ValidInputs(p) && NamesDevice(p)
    ensures IsDevice(n) && Literals(p, n) != []
  {
    if p.macs != [] { return EnabledMac; }
    var l := p.ips[0];
    assert l in p.ips && ValidIp(l);
    OfKindFrom(p.ips, l.kind);
    return if l.kind == V4 then EnabledV4 else if p.block6 then BlockV6 else EnabledV6;
  }

  lemma EmptyFails(sets: Sets, p: Policy)
    requires DeviceEmpty(sets)
    ensures !VerifyPasses(sets, p)
  {
    if ValidInputs(p) && NamesDevice(p) {
      var n := DeviceIsExpected(p);
      assert Verified(n);
    }
  }

  // ---- verdicts that differ ----

  /** One MAC and one target, and the sets that hold exactly them. */
  function OneMac(): Policy {
    Policy([Literal(Mac, 1, 0, true)], [], [], false, [])
  }

  function OneTarget(): Sets {
    FreshTable()[TargetV4 := {Elem(V4, 2)}]
  }

  function OneMacSets(): Sets {
    OneTarget()[EnabledMac := {Elem(Mac, 1)}][EnabledMacV6 := {Elem(Mac, 1)}]
  }

  lemma OneMacVerifies()
    ensures VerifyPasses(OneMacSets(), OneMac())
  {
    FreshTableIs();
    AllAre();
    forall n | Verified(n) ensures Accepts(Content(OneMacSets(), n), Literals(OneMac(), n)) {
      OneMacAccepts(n);
    }
  }

  lemma OneMacAccepts(n: SetName)
    requires Verified(n)
    ensures n in OneMacSets() && Accepts(OneMacSets()[n], Literals(OneMac(), n))
  {
  }

  /**
   * The query for stale targets was killed where nothing else is wrong: the tick finds every set, a policy that
   * passes and the marker, and returns 0; no refresh is on record, and `status` does not report effective.
   */
  lemma KilledQueryIsSuccess(r: Router)
    requires r.sets == OneMacSets() && r.uci == OneMac() && r.markers == {Enabled, NftApplied} && Healthy(r)
    requires r.log.died
    ensures AllPresent(r.sets) && VerifyPasses(r.sets, r.uci) && !r.Fresh() && !r.EffectiveEnabled()
    ensures AgreesWithStatus(r, true, true)
  {
    OneMacVerifies();
    FreshTableIs();
  }

  /**
   * The policy did not pass, the sets were emptied and the marker could not be removed: the tick finds the marker
   * and has nothing to apply, and returns 0 over empty sets.
   */
  lemma StuckMarkerIsSuccess(r: Router)
    requires r.sets == OneTarget() && r.uci == OneMac() && r.markers == {Enabled, NftApplied, RefreshOk}
    requires r.lastRefresh == Some(r.clock) && Healthy(r) && r.log.lostMarker
    ensures AllPresent(r.sets) && r.Fresh() && DeviceEmpty(r.sets) && !r.EffectiveEnabled()
    ensures AgreesWithStatus(r, true, true)
  {
    hide VerifyPasses;
    FreshTableIs();
    EmptyFails(r.sets, r.uci);
  }

  /**
   * A query failed, and then the flush and the removal too: the tick fails and has changed nothing, and `status`
   * reports effective.
   */
  lemma NothingTakenDown(r: Router)
    requires r.sets == OneMacSets() && r.uci == OneMac() && r.markers == {Enabled, NftApplied, RefreshOk}
    requires r.lastRefresh == Some(r.clock) && Healthy(r) && r.log.lostFlush && r.log.lostMarker
    ensures r.EffectiveEnabled() && AgreesWithStatus(r, false, true)
  {
    OneMacVerifies();
  }

  // ---- the loop around the tick ----

  /**
   * A request is consumed only when the bypass marker is there and interception is off; one that cannot be
   * served stays for the next round.
   */
  method ProcessRequests(r: Router) returns (ok: bool)
    requires r.Valid()
    modifies r`sets, r`log, r`alive, r`markers, r`request
    ensures r.Valid() && Goes(old(Here(r)), Here(r), DEVICES)
    ensures OnlyMarkers(old(r.markers), r.markers, {NftApplied, Bypass})
    ensures Bypass in old(r.markers) ==> Bypass in r.markers
    ensures ok ==> r.runDirSafe && !r.request
    ensures r.request ==> old(r.request)
    ensures old(r.request) && !r.request ==> Bypass in r.markers && NftApplied !in r.markers
    ensures old(r.request) && !r.request ==> DeviceEmpty(r.sets) || (r.log.lostFlush && r.log.misread)
    ensures !ok && !r.log.died && !r.log.lostFlush ==> DeviceEmpty(r.sets)
    ensures !ok && r.runDirSafe ==> r.log.failed || r.log.died || !NoReload(old(r.log), r.log)
    ensures ok && !old(r.request) ==> r.markers == old(r.markers) && r.sets == old(r.sets)
  {
    hide Goes, DeviceEmpty, Router.Valid;
    GoesSame(Here(r), DEVICES);
    if !r.runDirSafe {
      ClearSets(r);
      return false;
    }
    if !r.request { return true; }
    ok := ServeRequest(r);
  }

  method ServeRequest(r: Router) returns (ok: bool)
    requires r.Valid() && r.request
    modifies r`sets, r`log, r`alive, r`markers, r`request
    ensures r.Valid() && Goes(old(Here(r)), Here(r), DEVICES)
    ensures OnlyMarkers(old(r.markers), r.markers, {NftApplied, Bypass})
    ensures Bypass in old(r.markers) ==> Bypass in r.markers
    ensures ok <==> !r.request
    ensures ok ==> Bypass in r.markers && NftApplied !in r.markers
    ensures ok ==> DeviceEmpty(r.sets) || (r.log.lostFlush && r.log.misread)
    ensures !ok ==> r.log.failed || r.log.died || !NoReload(old(r.log), r.log)
    ensures !ok && !r.log.died && !r.log.lostFlush ==> DeviceEmpty(r.sets)
  {
    hide Goes, DeviceEmpty, Router.Valid;
    ghost var p0 := Here(r);
    var bypassed := CtlBypassOn(r);
    ghost var p1 := Here(r);
    GoesLater(p0, p1, DEVICES);
    if bypassed && Bypass in r.markers {
      ok := *;
      if ok {
        r.request := false;
      } else {
        FaultGoes(p1, false, false, false, true);
        r.Blame(false, false, false, true);
        GoesTwice(p0, p1, Here(r), DEVICES, {}, DEVICES);
      }
    } else {
      ClearSets(r);
      GoesTwice(p0, p1, Here(r), DEVICES, DEVICES, DEVICES);
      GoesLater(p1, Here(r), DEVICES);
      ok := false;
    }
  }

  ghost method ForgetFaults(r: Router)
    requires r.Valid()
    modifies r`log
    ensures r.Valid() && Faultless(r.log) && Onward(old(r.log), r.log) && Calm(old(r.log), r.log)
    ensures Now(r.log) == Now(old(r.log))
  {
    r.log := r.log.(died := false, misread := false, lostFlush := false, lostMarker := false, failed := false);
  }

  /**
   * One round of the main loop, from any state at all; the faults are those of this round only. It serves a
   * pending request, and its tick stands to `status` as every tick does. A round in which nothing fails and nobody
   * interferes brings a valid policy into force.
   */
  method Tick(r: Router, resolve: Resolver) returns (ok: bool)
    requires r.Valid() && Enabled in r.markers
    modifies r`sets, r`log, r`alive, r`markers, r`request, r`lastRefresh
    ensures r.Valid() && Onward(old(r.log), r.log) && Enabled in r.markers
    ensures AgreesWithStatus(r, ok, Calm(old(r.log), r.log))
    ensures (!ok || Bypass in r.markers) && !r.log.died && !r.log.lostFlush ==> DeviceEmpty(r.sets)
    ensures Ready(r, resolve) && Faultless(r.log) && Calm(old(r.log), r.log) ==> ok
    ensures Bypass in old(r.markers) ==> Bypass in r.markers
    ensures old(r.request) && !r.request ==> Bypass in r.markers
    ensures old(r.request) && r.runDirSafe && !r.log.failed && !r.log.died && NoReload(old(r.log), r.log)
            ==> !r.request && Bypass in r.markers
  {
    hide Goes, VerifyPasses, DeviceEmpty, AllPresent, TargetsPresent, ValidInputs, Unaliased, ResolverOk, Router.Valid,
         Extends, Recent, AgreesWithStatus;
    ghost var l0 := r.log;
    ForgetFaults(r);
    ghost var p1 := Here(r);
    var served := ProcessRequests(r);
    ghost var p2 := Here(r);
    GoesLater(p1, p2, DEVICES);
    OnwardTwice(l0, p1.log, p2.log);
    ok := RunOnce(r, resolve);
    OnwardTwice(l0, p2.log, r.log);
    CalmAgrees(r, ok, l0, p2.log);
  }

  /** To be undisturbed from earlier on is to be undisturbed. */
  lemma CalmAgrees(r: Router, ok: bool, a: Log, b: Log)
    requires Onward(a, b) && Onward(b, r.log) && AgreesWithStatus(r, ok, Calm(b, r.log))
    ensures AgreesWithStatus(r, ok, Calm(a, r.log))
  {
    hide VerifyPasses, TargetsPresent, Extends;
  }

  const STARTUP_ATTEMPTS: nat := 20

  /** Polls until the daemon answers; between two polls the daemon does what it likes. */
  method WaitForDaemon(r: Router) returns (ok: bool, polls: nat)
    modifies r`ready, r`responding
    ensures ok ==> Healthy(r) && polls < 20
    ensures !ok ==> polls == 20
  {
    polls := 0;
    while polls < STARTUP_ATTEMPTS
      invariant polls <= STARTUP_ATTEMPTS
    {
      ok := HealthyDaemon(r);
      if ok { return; }
      r.ready, r.responding := *, *;
      polls := polls + 1;
    }
    ok := false;
  }

  /** write_enabled_marker */
  method WriteEnabled(r: Router) returns (ok: bool)
    requires r.Valid()
    modifies r`log, r`markers
    ensures r.Valid() && Onward(old(r.log), r.log) && Calm(old(r.log), r.log)
    ensures r.log.lostMarker == old(r.log).lostMarker && r.log.died == old(r.log).died
    ensures r.log.lostFlush == old(r.log).lostFlush
    ensures r.markers == if ok then old(r.markers) + {Enabled} else old(r.markers)
  {
    hide Goes, Router.Valid, Extends;
    LaterSame(r.log);
    ok := *;
    if ok {
      r.markers := r.markers + {Enabled};
    } else {
      ghost var p := Here(r);
      FaultGoes(p, false, false, false, true);
      r.Blame(false, false, false, true);
      GoesLater(p, Here(r), {});
    }
  }

  /** Activation either leaves the enabled marker behind a first good tick, or neither marker nor interception. */
  method Activate(r: Router, resolve: Resolver) returns (ok: bool)
    requires r.Valid()
    modifies r`sets, r`log, r`alive, r`markers, r`lastRefresh, r`ready, r`responding
    ensures r.Valid() && Onward(old(r.log), r.log)
    ensures Enabled in old(r.markers) ==> ok && r.markers == old(r.markers) && r.sets == old(r.sets)
    ensures ok ==> Enabled in r.markers
    ensures ok && Enabled !in old(r.markers) ==> AgreesWithStatus(r, ok, Calm(old(r.log), r.log))
    ensures !ok && !r.log.lostMarker ==> Enabled !in r.markers && NftApplied !in r.markers
    ensures !ok && !r.log.died && !r.log.lostFlush ==> DeviceEmpty(r.sets)
  {
    hide Goes, VerifyPasses, DeviceEmpty, AllPresent, TargetsPresent, ValidInputs, Unaliased, ResolverOk, Router.Valid,
         Extends, Recent, AgreesWithStatus;
    ghost var l0 := r.log;
    LaterSame(l0);
    if Enabled in r.markers { return true; }
    ForgetFaults(r);
    var polls;
    ok, polls := WaitForDaemon(r);
    ghost var l1 := r.log;
    if ok {
      ok := WriteEnabled(r);
      OnwardTwice(l0, l1, r.log);
    }
    ghost var l2 := r.log;
    if ok {
      ok := RunOnce(r, resolve);
      OnwardTwice(l0, l2, r.log);
      CalmAgrees(r, ok, l0, l2);
    }
    ghost var l3 := r.log;
    if !ok {
      Deactivate(r);
      OnwardTwice(l0, l3, r.log);
    }
  }

  method Deactivate(r: Router)
    requires r.Valid()
    modifies r`sets, r`log, r`alive, r`markers
    ensures r.Valid() && Later(old(r.log), r.log)
    ensures !r.log.lostMarker ==> Enabled !in r.markers && NftApplied !in r.markers
    ensures !r.log.died && !r.log.lostFlush ==> DeviceEmpty(r.sets)
  {
    hide Goes, DeviceEmpty, Router.Valid;
    ghost var p0 := Here(r);
    ClearSets(r);
    ghost var p1 := Here(r);
    RemoveFile(r, Enabled);
    GoesTwice(p0, p1, Here(r), DEVICES, {}, DEVICES);
    GoesLater(p0, Here(r), DEVICES);
    GoesLater(p1, Here(r), {});
  }

  // ---- package/ils-gateway/root/usr/bin/locspoof-service reload ----

  /** One command of sync_monitor: a flush, of which a part may remain in the other two sets, or an add. */
  datatype MonitorEdit = FlushOne(rest: set<Elem>) | AddOne(elem: Elem)

  function Edited(content: set<Elem>, e: MonitorEdit): set<Elem> {
    match e case FlushOne(rest) => content * rest case AddOne(elem) => content + {elem}
  }

  method EditMonitors(r: Router, e: MonitorEdit) returns (ok: bool)
    requires r.Valid()
    modifies r`sets, r`log, r`alive
    ensures r.Valid() && Goes(old(r.At()), r.At(), {Monitors})
    ensures ok ==> r.alive && Monitors in r.sets
    ensures ok && Calm(old(r.log), r.log) ==>
      Content(r.sets, Monitors) == Edited(Content(old(r.sets), Monitors), e)
  {
    hide Goes, Held, LanTracked, LanFree, Kept, Router.Valid;
    ghost var p0 := r.At();
    r.Between();
    ghost var p1 := r.At();
    GoesKeeps(p0, p1, {});
    GoesLater(p0, p1, {});
    ok := *;
    ok := ok && r.alive && Monitors in r.sets;
    GoesSame(p1, {Monitors});
    if ok {
      r.HeldNow();
      var next := r.sets[Monitors := Edited(r.sets[Monitors], e)];
      OtherSets(r.sets, Monitors, next[Monitors]);
      HeldOthers(Now(r.log), next);
      r.Make(next, Next(Now(r.log), next), {Monitors});
    }
    GoesLater(p1, r.At(), {Monitors});
    GoesTwice(p0, p1, r.At(), {}, {Monitors}, {Monitors});
  }

  /** The three flushes. */
  method FlushMonitors(r: Router) returns (ok: bool)
    requires r.Valid()
    modifies r`sets, r`log, r`alive
    ensures r.Valid() && Goes(old(r.At()), r.At(), {Monitors})
    ensures ok ==> r.alive && Monitors in r.sets
    ensures ok && Calm(old(r.log), r.log) ==> Content(r.sets, Monitors) == {}
  {
    hide Goes, Router.Valid;
    ghost var p0 := r.At();
    GoesSame(p0, {Monitors});
    ok := true;
    for i := 0 to 3
      invariant r.Valid() && Goes(p0, r.At(), {Monitors})
      invariant ok && i == 3 ==> r.alive && Monitors in r.sets
      invariant ok && i == 3 && Calm(p0.log, r.log) ==> Content(r.sets, Monitors) == {}
    {
      ghost var p := r.At();
      var rest: set<Elem> := *;
      var flushed := EditMonitors(r, FlushOne(if i < 2 || !ok then rest else {}));
      ok := ok && flushed;
      GoesLater(p0, p, {Monitors});
      GoesLater(p, r.At(), {Monitors});
      GoesTwice(p0, p, r.At(), {Monitors}, {Monitors}, {Monitors});
    }
  }

  /**
   * sync_monitor, a process of its own: whatever it achieves, it concerns the monitored sets only, and an
   * undisturbed success leaves exactly the monitored elements in them.
   */
  method SyncMonitor(r: Router, monitored: seq<Elem>) returns (ok: bool)
    requires r.Valid()
    modifies r`sets, r`log, r`alive
    ensures r.Valid() && Goes(old(Here(r)), Here(r), {Monitors})
    ensures ok && Calm(old(r.log), r.log) ==>
      Monitors in r.sets && r.sets[Monitors] == set k | 0 <= k < |monitored| :: monitored[k]
  {
    hide Goes, Router.Valid;
    r.alive := true;
    ghost var p0 := r.At();
    ok := FlushMonitors(r);
    var i: nat := 0;
    while ok && i < |monitored|
      invariant i <= |monitored|
      invariant r.Valid() && Goes(p0, r.At(), {Monitors})
      invariant ok ==> r.alive && Monitors in r.sets
      invariant ok && Calm(p0.log, r.log) ==> Content(r.sets, Monitors) == set k | 0 <= k < i :: monitored[k]
      decreases |monitored| - i, ok
    {
      ghost var p := r.At();
      ok := EditMonitors(r, AddOne(monitored[i]));
      GoesLater(p0, p, {Monitors});
      GoesLater(p, r.At(), {Monitors});
      GoesTwice(p0, p, r.At(), {Monitors}, {Monitors}, {Monitors});
      i := i + 1;
    }
    ProcessEnds(p0, r.At(), {Monitors});
  }

  /**
   * A reload with the service switched on applies the policy whether or not bypass is on; switched off, it
   * clears and leaves the markers as they are.
   */
  method ServiceReload(r: Router, enabled: bool, resolve: Resolver) returns (ok: bool)
    requires r.Valid()
    modifies r`sets, r`log, r`alive, r`markers, r`lastRefresh
    ensures r.Valid() && Later(old(r.log), r.log)
    ensures OnlyMarkers(old(r.markers), r.markers, REFRESH_MARKERS)
    ensures ok && enabled ==> NftApplied in r.markers
    ensures ok && enabled && Calm(old(r.log), r.log) ==>
      VerifyPasses(r.sets, r.uci) && (!Now(r.log).tainted ==> InForce(r.sets, r.uci))
    ensures ok && !enabled ==> r.markers == old(r.markers)
    ensures ok && !enabled && !r.log.died && !r.log.lostFlush ==> DeviceEmpty(r.sets)
  {
    hide Goes, VerifyPasses, DeviceEmpty, InForce, Router.Valid, ResolverOk, Extends;
    ghost var p0 := Here(r);
    var monitored: seq<Elem> := *;
    ok := SyncMonitor(r, monitored);
    ghost var p1 := Here(r);
    GoesLater(p0, p1, {Monitors});
    if !ok { return; }
    if !enabled {
      ok := CtlClear(r);
      GoesLater(p1, Here(r), DEVICES);
    } else {
      ok := ReloadEnabled(r, resolve);
    }
    LaterTwice(p0.log, p1.log, r.log);
  }

  method ReloadEnabled(r: Router, resolve: Resolver) returns (ok: bool)
    requires r.Valid()
    modifies r`sets, r`log, r`alive, r`markers, r`lastRefresh
    ensures r.Valid() && Later(old(r.log), r.log)
    ensures OnlyMarkers(old(r.markers), r.markers, REFRESH_MARKERS)
    ensures ok ==> NftApplied in r.markers
    ensures ok && Calm(old(r.log), r.log) ==>
      VerifyPasses(r.sets, r.uci) && (!Now(r.log).tainted ==> InForce(r.sets, r.uci))
  {
    hide Goes, VerifyPasses, InForce, Router.Valid, Router.MayApply, Router.AllOrNothing, Router.TargetsAre,
         ResolverOk, AllPresent, TargetsPresent, Extends, Recent;
    ghost var p0 := Here(r);
    LaterSame(r.log);
    // the daemon may be gone, or refuse the new configuration
    ok := *;
    if !ok { return; }
    ok := CtlRefreshTargets(r, resolve);
    ghost var p1 := Here(r);
    GoesLater(p0, p1, REFRESHES);
    if !ok { return; }
    var monitored: seq<Elem> := *;
    ok := SyncMonitor(r, monitored);
    ghost var p2 := Here(r);
    GoesLater(p1, p2, {Monitors});
    LaterTwice(p0.log, p1.log, p2.log);
    if !ok { return; }
    ok := CtlApply(r);
    GoesLater(p2, Here(r), POLICY);
    LaterTwice(p0.log, p2.log, r.log);
  }

  // ---- runs ----

  /** What can happen to the router: the scripts, called in any order, and the world around them. */
  datatype Event =
    | WatchdogTick(resolve: Resolver)
    | WatchdogStart(resolve: Resolver)
    | ServiceReloads(enabled: bool, resolve: Resolver)
    | Command(command: CtlCommand)
    | EditUci(policy: Policy)
    | FirewallReload
    | TargetTimeout(gone: set<Elem>)
    | Daemon(ready: bool, responding: bool)
    | RequestBypass
    | RuntimeDirectory(safe: bool)
    | TimePasses(seconds: nat)

  datatype CtlCommand = Apply | Clear | RefreshTargets(resolve: Resolver) | BypassOn | BypassOff
                     | MonitorSync(monitored: seq<Elem>)

  method RunCommand(r: Router, c: CtlCommand)
    requires r.Valid()
    modifies r`sets, r`log, r`alive, r`markers, r`lastRefresh
    ensures r.Valid() && Onward(old(r.log), r.log)
  {
    hide Goes, VerifyPasses, DeviceEmpty, InForce, Router.Valid, Router.MayApply, Router.AllOrNothing,
         Router.TargetsAre, ResolverOk, AllPresent, TargetsPresent, Extends, Recent;
    ghost var p := Here(r);
    var ok;
    match c {
      case Apply =>
        ok := CtlApply(r);
        GoesLater(p, Here(r), POLICY);
      case Clear =>
        ok := CtlClear(r);
        GoesLater(p, Here(r), DEVICES);
      case RefreshTargets(resolve) =>
        ok := CtlRefreshTargets(r, resolve);
        GoesLater(p, Here(r), REFRESHES);
      case BypassOn =>
        ok := CtlBypassOn(r);
        GoesLater(p, Here(r), DEVICES);
      case BypassOff =>
        ok := CtlBypassOff(r);
        GoesLater(p, Here(r), POLICY);
      case MonitorSync(monitored) =>
        ok := SyncMonitor(r, monitored);
        GoesLater(p, Here(r), {Monitors});
    }
  }

  /** A policy that the configuration has held stays among those the sets may hold. */
  method Edit(r: Router, p: Policy)
    requires r.Valid()
    modifies r`uci, r`ucis
    ensures r.Valid() && r.uci == p && r.ucis == old(r.ucis) + {p}
  {
    GoodWider(r.log, r.ucis, r.ucis + {p});
    hide Good;
    r.uci, r.ucis := p, r.ucis + {p};
  }

  method Expire(r: Router, gone: set<Elem>)
    requires r.Valid()
    modifies r`sets, r`log
    ensures r.Valid() && Onward(old(r.log), r.log)
  {
    hide Goes, Router.Valid, LanFree;
    ghost var p := r.At();
    r.Expire(gone);
    GoesLater(p, r.At(), {});
  }

  method Step(r: Router, e: Event)
    requires r.Valid()
    modifies r
    ensures r.Valid() && Onward(old(r.log), r.log)
    ensures old(r.ucis) <= r.ucis
  {
    hide DeviceEmpty, FreshTable, ResolverOk, VerifyPasses, InForce, Extends, AgreesWithStatus, LanFree, Good;
    LaterSame(r.log);
    var ok;
    match e
    case WatchdogTick(resolve) =>
      if Enabled in r.markers { ok := Tick(r, resolve); }
    case WatchdogStart(resolve) =>
      ok := Activate(r, resolve);
    case ServiceReloads(enabled, resolve) =>
      ok := ServiceReload(r, enabled, resolve);
    case Command(c) =>
      RunCommand(r, c);
    case EditUci(p) =>
      Edit(r, p);
    case FirewallReload =>
      r.Reload(true);
    case TargetTimeout(gone) =>
      Expire(r, gone);
    case Daemon(ready, responding) =>
      r.ready, r.responding := ready, responding;
    case RequestBypass =>
      r.request := true;
    case RuntimeDirectory(safe) =>
      r.runDirSafe := safe;
    case TimePasses(seconds) =>
      r.clock := r.clock + seconds;
  }

  /**
   * Any events in any order, with any fault in any of them, and with reloads and timeouts before any single command
   * of theirs.
   */
  method Run(r: Router, events: seq<Event>)
    requires r.Valid()
    modifies r
    ensures r.Valid() && Onward(old(r.log), r.log)
    ensures old(r.ucis) <= r.ucis
  {
    hide Extends;
    LaterSame(r.log);
    for i := 0 to |events|
      invariant r.Valid() && Onward(old(r.log), r.log)
      invariant old(r.ucis) <= r.ucis
    {
      ghost var l := r.log;
      Step(r, events[i]);
      OnwardTwice(old(r.log), l, r.log);
    }
  }

  ghost predicate RedirectsAndBlocks(s: Sets) {
    && (Content(s, EnabledV6) != {} || Content(s, EnabledMacV6) != {})
    && (Content(s, BlockV6) != {} || Content(s, BlockMacV6) != {})
  }

  /**
   * One moment: the device sets are part of one policy that the configuration has held, IPv6 is not both
   * redirected and blocked, and while a device is in the sets the interface set is exactly that policy's, if and
   * only if no reload of the firewall came since it was written, or one that changed nothing.
   */
  ghost predicate Sane(s: Snapshot, ucis: set<Policy>) {
    && s.policy in ucis && PartOf(s.sets, s.policy) && !RedirectsAndBlocks(s.sets)
    && (!DeviceEmpty(s.sets) ==>
          ((Content(s.sets, LanIfaces) == Interfaces(s.policy)) <==>
           s.since.None? || DefaultSuffices(s.policy, s.since.value)))
  }

  /**
   * Every moment of every run, also those between two commands of one process, at which the sets are not tainted:
   * they become so only when a policy takes over sets that clear has left elements in, and stay so only until the
   * last device is gone.
   */
  lemma NeverMixed(r: Router)
    requires r.Valid()
    ensures forall s | s in r.log.history && !s.tainted :: Sane(s, r.ucis)
  {
    hide Within, Guarded, DefaultSuffices, DeviceEmpty, LanReady, Held, PartOf, Interfaces, RedirectsAndBlocks;
    forall s | s in r.log.history && !s.tainted ensures Sane(s, r.ucis) {
      var i :| 0 <= i < |r.log.history| && r.log.history[i] == s;
      assert Held(r.log.history[i]);
      HeldIsSane(s);
    }
  }

  lemma HeldIsSane(s: Snapshot)
    requires Held(s) && !s.tainted
    ensures PartOf(s.sets, s.policy) && !RedirectsAndBlocks(s.sets)
    ensures !DeviceEmpty(s.sets) ==>
      ((Content(s.sets, LanIfaces) == Interfaces(s.policy)) <==>
       s.since.None? || DefaultSuffices(s.policy, s.since.value))
  {
    hide DefaultSuffices, Expected, LanTracked;
    RedirectOrBlock(s.sets, s.policy);
    if DeviceEmpty(s.sets) {
      assert IsDevice(EnabledMac) && IsDevice(EnabledV4) && IsDevice(EnabledMacV6) && IsDevice(EnabledV6);
      assert IsDevice(BlockMacV6) && IsDevice(BlockV6);
    } else {
      GuardedExactly(s);
      InForceIsExact(s.sets, s.policy);
      ExpectedIs(s.policy);
    }
  }

  /** The same from power-up on, for every run there is. */
  method FromBoot(markers: set<Marker>, lastRefresh: Option<nat>, uci: Policy, clock: nat, events: seq<Event>)
    returns (r: Router)
    ensures fresh(r) && r.Valid() && uci in r.ucis
    ensures forall s | s in r.log.history && !s.tainted :: Sane(s, r.ucis)
  {
    FreshTableIs();
    r := new Router(FreshTable(), markers, lastRefresh, uci, clock);
    hide Sane, Good;
    Run(r, events);
    NeverMixed(r);
  }

  /**
   * Whatever happened before, one round in which nothing fails and nobody interferes puts exactly the configured
   * policy into force.
   */
  method Recover(r: Router, events: seq<Event>, resolve: Resolver) returns (ok: bool, ghost start: Log)
    requires r.Valid()
    modifies r
    ensures r.Valid() && Onward(start, r.log)
    ensures Enabled in r.markers && Ready(r, resolve) && Faultless(r.log) && Calm(start, r.log)
            ==> ok && r.EffectiveEnabled() && InForce(r.sets, r.uci)
  {
    hide InForce, ResolverOk, ValidInputs, VerifyPasses, DeviceEmpty, Extends, Good, TargetsPresent;
    Run(r, events);
    ok, start := true, r.log;
    LaterSame(start);
    if Enabled in r.markers {
      ok := Tick(r, resolve);
      if r.EffectiveEnabled() && Unaliased(r.uci) { EffectiveIsExact(r); }
    }
  }
}
