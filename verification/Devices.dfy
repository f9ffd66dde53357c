/**
 * The device checks of Config.Validate in internal/config/config.go, and what they add to those of the shell: the
 * daemon compares addresses, the scripts compare texts.
 */
module Devices {
  import opened Bytes
  import opened NftPolicy
  import opened Ctl

  // ::ffff:0:0/96
  const MAPPED: nat := 0xffff_0000_0000

  /** The key under which net.IP.String files an address: an IPv4-mapped IPv6 address is the IPv4 address. */
  function IpKey(e: Elem): Elem {
    if e.kind == V6 && MAPPED <= e.addr < MAPPED + TWO32 then Elem(V4, e.addr - MAPPED) else e
  }

  /** The addresses ::ffff:a.b.c.d are those of IPv4, and no others are. */
  lemma MappedIs(e: Elem)
    ensures e.kind == V6 && 0xffff_0000_0000 <= e.addr < 0x1_0000_0000_0000 ==>
      IpKey(e) == Elem(V4, e.addr - 0xffff_0000_0000)
    ensures IsV4(e) <==> e.kind == V4 || (e.kind == V6 && 0xffff_0000_0000 <= e.addr < 0x1_0000_0000_0000)
    ensures e.kind != V6 || e.addr < 0xffff_0000_0000 || e.addr >= 0x1_0000_0000_0000 ==> IpKey(e) == e
  {
  }

  predicate IsV4(e: Elem) { IpKey(e).kind == V4 }

  datatype Verdict = Accepted | InvalidMac | DuplicateMac | InvalidIp | DuplicateIp | NoDevice

  /** What the daemon has read; `parses` stands for net.ParseMAC and net.ParseIP. */
  datatype Config = Config(enabled: bool, mac: Option<Literal>, macs: seq<Literal>,
                           v4: Option<Literal>, v6: Option<Literal>, ips: seq<Literal>)

  function Listed(l: Option<Literal>): seq<Literal> {
    match l case None => [] case Some(x) => [x]
  }

  function AllMacs(c: Config): seq<Literal> { Listed(c.mac) + c.macs }

  function AllIps(c: Config): seq<Literal> { Listed(c.v4) + Listed(c.v6) + c.ips }

  function IpKeys(ls: seq<Literal>): set<Elem> {
    set l | l in ls :: IpKey(Canon(l))
  }

  predicate DistinctIps(ls: seq<Literal>) {
    forall i, j | 0 <= i < j < |ls| :: IpKey(Canon(ls[i])) != IpKey(Canon(ls[j]))
  }

  /** All that is there parses, and the two single addresses are of their family. */
  ghost predicate Parses(c: Config, parses: Literal -> bool) {
    && (forall l | l in AllMacs(c) :: parses(l))
    && (forall l | l in AllIps(c) :: parses(l))
    && (c.v4.Some? ==> IsV4(Canon(c.v4.value)))
    && (c.v6.Some? ==> !IsV4(Canon(c.v6.value)))
  }

  method CheckMacs(c: Config, parses: Literal -> bool) returns (r: Verdict, seen: set<Elem>)
    ensures r.Accepted? <==> (forall l | l in AllMacs(c) :: parses(l)) && Distinct(AllMacs(c))
    ensures r in {Accepted, InvalidMac, DuplicateMac}
    ensures r.Accepted? ==> seen == CanonSet(AllMacs(c))
  {
    seen := {};
    var first := Listed(c.mac);
    if c.mac.Some? {
      if !parses(c.mac.value) {
        assert c.mac.value == AllMacs(c)[0];
        return InvalidMac, seen;
      }
      seen := {Canon(c.mac.value)};
    }
    for i := 0 to |c.macs|
      invariant seen == CanonSet(first + c.macs[..i])
      invariant (forall l | l in first + c.macs[..i] :: parses(l)) && Distinct(first + c.macs[..i])
    {
      var l := c.macs[i];
      Longer(first, c.macs, i);
      if !parses(l) {
        assert AllMacs(c)[|first| + i] == l;
        return InvalidMac, seen;
      }
      if Canon(l) in seen {
        NotDistinct(AllMacs(c), |first| + i);
        return DuplicateMac, seen;
      }
      DistinctAppend(first + c.macs[..i], l);
      CanonSetAppend(first + c.macs[..i], l);
      seen := seen + {Canon(l)};
    }
    assert first + c.macs[..|c.macs|] == AllMacs(c);
    r := Accepted;
  }

  lemma Longer(first: seq<Literal>, ls: seq<Literal>, i: nat)
    requires i < |ls|
    ensures first + ls[..i + 1] == first + ls[..i] + [ls[i]]
    ensures (first + ls)[..|first| + i] == first + ls[..i] && (first + ls)[|first| + i] == ls[i]
  {
  }

  lemma NotDistinct(ls: seq<Literal>, i: nat)
    requires i < |ls| && Canon(ls[i]) in CanonSet(ls[..i])
    ensures !Distinct(ls)
  {
    var j :| 0 <= j < i && Canon(ls[..i][j]) == Canon(ls[i]);
    assert ls[j] == ls[..i][j];
  }

  lemma DistinctAppend(ls: seq<Literal>, l: Literal)
    requires Distinct(ls) && Canon(l) !in CanonSet(ls)
    ensures Distinct(ls + [l])
  {
    forall i, j | 0 <= i < j < |ls| + 1 ensures Canon((ls + [l])[i]) != Canon((ls + [l])[j]) {
      assert i < |ls| && ls[i] in ls;
    }
  }

  lemma IpAppend(ls: seq<Literal>, l: Literal)
    ensures IpKeys(ls + [l]) == IpKeys(ls) + {IpKey(Canon(l))}
    ensures DistinctIps(ls) && IpKey(Canon(l)) !in IpKeys(ls) ==> DistinctIps(ls + [l])
  {
    forall e ensures e in IpKeys(ls + [l]) <==> e in IpKeys(ls) + {IpKey(Canon(l))} {
      if e in IpKeys(ls) {
        var x :| x in ls && IpKey(Canon(x)) == e;
        assert x in ls + [l];
      }
      if e == IpKey(Canon(l)) { assert (ls + [l])[|ls|] == l; }
    }
    if DistinctIps(ls) && IpKey(Canon(l)) !in IpKeys(ls) {
      forall i, j | 0 <= i < j < |ls| + 1 ensures IpKey(Canon((ls + [l])[i])) != IpKey(Canon((ls + [l])[j])) {
        assert i < |ls| && ls[i] in ls;
      }
    }
  }

  lemma NotDistinctIps(ls: seq<Literal>, i: nat)
    requires i < |ls| && IpKey(Canon(ls[i])) in IpKeys(ls[..i])
    ensures !DistinctIps(ls)
  {
    var j :| 0 <= j < i && IpKey(Canon(ls[..i][j])) == IpKey(Canon(ls[i]));
    assert ls[j] == ls[..i][j];
  }

  /** The two single addresses; they are not compared with each other, and need not be. */
  method CheckSingles(c: Config, parses: Literal -> bool) returns (r: Verdict, seen: set<Elem>)
    ensures r.Accepted? <==>
      && (c.v4.Some? ==> parses(c.v4.value) && IsV4(Canon(c.v4.value)))
      && (c.v6.Some? ==> parses(c.v6.value) && !IsV4(Canon(c.v6.value)))
    ensures r in {Accepted, InvalidIp}
    ensures r.Accepted? ==> var first := Listed(c.v4) + Listed(c.v6); seen == IpKeys(first) && DistinctIps(first)
  {
    seen := {};
    if c.v4.Some? {
      if !parses(c.v4.value) || !IsV4(Canon(c.v4.value)) { return InvalidIp, seen; }
      seen := {IpKey(Canon(c.v4.value))};
    }
    if c.v6.Some? {
      if !parses(c.v6.value) || IsV4(Canon(c.v6.value)) { return InvalidIp, seen; }
      seen := seen + {IpKey(Canon(c.v6.value))};
    }
    var first := Listed(c.v4) + Listed(c.v6);
    assert c.v4.Some? ==> first[0] == c.v4.value;
    assert c.v6.Some? ==> first[|first| - 1] == c.v6.value;
    assert forall l | l in first :: (c.v4.Some? && l == c.v4.value) || (c.v6.Some? && l == c.v6.value);
    r := Accepted;
  }

  /** The addresses of the list, against those before them. */
  method CheckRest(first: seq<Literal>, ips: seq<Literal>, parses: Literal -> bool, before: set<Elem>)
    returns (r: Verdict, seen: set<Elem>)
    requires before == IpKeys(first) && DistinctIps(first)
    ensures r.Accepted? <==> (forall l | l in ips :: parses(l)) && DistinctIps(first + ips)
    ensures r in {Accepted, InvalidIp, DuplicateIp}
    ensures r.Accepted? ==> seen == IpKeys(first + ips)
  {
    hide IpKeys, DistinctIps, IpKey;
    seen := before;
    assert first + ips[..0] == first;
    for i := 0 to |ips|
      invariant seen == IpKeys(first + ips[..i]) && DistinctIps(first + ips[..i])
      invariant forall j | 0 <= j < i :: parses(ips[j])
    {
      var l := ips[i];
      Longer(first, ips, i);
      if !parses(l) {
        assert l in ips;
        return InvalidIp, seen;
      }
      if IpKey(Canon(l)) in seen {
        NotDistinctIps(first + ips, |first| + i);
        return DuplicateIp, seen;
      }
      IpAppend(first + ips[..i], l);
      seen := seen + {IpKey(Canon(l))};
    }
    assert ips[..|ips|] == ips;
    r := Accepted;
  }

  method CheckIps(c: Config, parses: Literal -> bool) returns (r: Verdict, seen: set<Elem>)
    ensures r.Accepted? <==>
      && (forall l | l in AllIps(c) :: parses(l))
      && (c.v4.Some? ==> IsV4(Canon(c.v4.value))) && (c.v6.Some? ==> !IsV4(Canon(c.v6.value)))
      && DistinctIps(AllIps(c))
    ensures r in {Accepted, InvalidIp, DuplicateIp}
    ensures r.Accepted? ==> seen == IpKeys(AllIps(c))
  {
    hide IsV4, IpKey, IpKeys, DistinctIps;
    SinglesListed(c);
    r, seen := CheckSingles(c, parses);
    if !r.Accepted? { return; }
    r, seen := CheckRest(Listed(c.v4) + Listed(c.v6), c.ips, parses, seen);
  }

  lemma SinglesListed(c: Config)
    ensures c.v4.Some? ==> c.v4.value in AllIps(c)
    ensures c.v6.Some? ==> c.v6.value in AllIps(c)
    ensures forall l | l in AllIps(c) ::
      l in c.ips || (c.v4.Some? && l == c.v4.value) || (c.v6.Some? && l == c.v6.value)
    ensures forall l | l in c.ips :: l in AllIps(c)
  {
    var first := Listed(c.v4) + Listed(c.v6);
    assert c.v4.Some? ==> AllIps(c)[0] == c.v4.value;
    assert c.v6.Some? ==> AllIps(c)[|first| - 1] == c.v6.value;
  }

  ghost predicate Acceptable(c: Config, parses: Literal -> bool) {
    && Parses(c, parses) && Distinct(AllMacs(c)) && DistinctIps(AllIps(c))
    && (c.enabled ==> AllMacs(c) != [] || AllIps(c) != [])
  }

  /** The device checks, in the order of the code. */
  method Validate(c: Config, parses: Literal -> bool) returns (r: Verdict)
    ensures r.Accepted? <==> Acceptable(c, parses)
  {
    hide Distinct, DistinctIps, IsV4, AllMacs, AllIps;
    var macs, ips;
    r, macs := CheckMacs(c, parses);
    if !r.Accepted? { return; }
    r, ips := CheckIps(c, parses);
    if !r.Accepted? { return; }
    SomethingSeen(AllMacs(c), AllIps(c));
    if c.enabled && |macs| == 0 && |ips| == 0 { return NoDevice; }
  }

  lemma SomethingSeen(macs: seq<Literal>, ips: seq<Literal>)
    ensures |CanonSet(macs)| == 0 <==> macs == []
    ensures |IpKeys(ips)| == 0 <==> ips == []
  {
    if macs != [] { assert Canon(macs[0]) in CanonSet(macs); }
    if ips != [] { assert IpKey(Canon(ips[0])) in IpKeys(ips); }
  }

  /** The same devices as the scripts read them. */
  ghost predicate SameDevices(c: Config, p: Policy) {
    AllMacs(c) == p.macs && AllIps(c) == p.ips
  }

  /** No IPv4 device is also configured as an IPv4-mapped IPv6 address. */
  ghost predicate NoMappedTwin(p: Policy) {
    forall l, m | l in p.ips && m in p.ips && l.kind == V4 && m.kind == V6 :: IpKey(Canon(m)) != Canon(l)
  }

  lemma DistinctIpsMeans(ips: seq<Literal>)
    requires forall l | l in ips :: l.kind == V4 || l.kind == V6
    ensures DistinctIps(ips) ==> Distinct(ips)
    ensures Distinct(ips) && !DistinctIps(ips) ==>
      exists l, m :: l in ips && m in ips && l.kind == V4 && m.kind == V6 && IpKey(Canon(m)) == Canon(l)
  {
    if Distinct(ips) && !DistinctIps(ips) {
      var i, j :| 0 <= i < j < |ips| && IpKey(Canon(ips[i])) == IpKey(Canon(ips[j]));
      assert ips[i] in ips && ips[j] in ips && Canon(ips[i]) != Canon(ips[j]);
      if ips[i].kind == V4 {
        assert IpKey(Canon(ips[j])) == Canon(ips[i]);
      } else {
        assert IpKey(Canon(ips[i])) == Canon(ips[j]);
      }
    }
  }

  lemma {:induction false} OfKindKeepsDistinct(ls: seq<Literal>, k: Kind)
    requires Distinct(ls)
    ensures Distinct(OfKind(ls, k))
  {
    if ls != [] {
      hide Distinct, CanonSet;
      DistinctHead(ls);
      OfKindKeepsDistinct(ls[1..], k);
      var kept := OfKind(ls[1..], k);
      if ls[0].kind == k {
        assert ([ls[0]] + kept)[1..] == kept;
        KeptSubset(ls[1..], k);
        DistinctHead([ls[0]] + kept);
      }
    }
  }

  lemma KeptSubset(ls: seq<Literal>, k: Kind)
    ensures CanonSet(OfKind(ls, k)) <= CanonSet(ls)
  {
    OfKindFrom(ls, k);
  }

  lemma {:induction false} DistinctFromKinds(ips: seq<Literal>)
    requires forall l | l in ips :: l.kind == V4 || l.kind == V6
    requires Distinct(OfKind(ips, V4)) && Distinct(OfKind(ips, V6))
    ensures Distinct(ips)
  {
    if ips != [] {
      hide Distinct, CanonSet;
      var rest, k := ips[1..], ips[0].kind;
      var other := if k == V4 then V6 else V4;
      assert ips[0] in ips;
      assert OfKind(ips, k) == [ips[0]] + OfKind(rest, k);
      assert OfKind(ips, other) == OfKind(rest, other);
      assert ([ips[0]] + OfKind(rest, k))[1..] == OfKind(rest, k);
      DistinctHead([ips[0]] + OfKind(rest, k));
      DistinctFromKinds(rest);
      OneKind(ips[0], rest);
      DistinctHead(ips);
    }
  }

  lemma OneKind(l: Literal, ls: seq<Literal>)
    requires Canon(l) !in CanonSet(OfKind(ls, l.kind))
    ensures Canon(l) !in CanonSet(ls)
  {
    OfKindFrom(ls, l.kind);
  }

  /** The single addresses are under the option of their family. */
  ghost predicate WellPlaced(c: Config) {
    (c.v4.Some? ==> IsV4(Canon(c.v4.value))) && (c.v6.Some? ==> !IsV4(Canon(c.v6.value)))
  }

  /**
   * What the daemon adds: of the policies that the scripts accept, and whose texts it can read, it refuses exactly
   * those whose IPv6 addresses alias, those that name an IPv4 device a second time as a mapped address, and those
   * with a single address under the option of the other family.
   */
  lemma DaemonRefusesAliases(c: Config, p: Policy, parses: Literal -> bool)
    requires SameDevices(c, p) && ValidInputs(p) && NamesDevice(p)
    requires forall l | l in p.macs || l in p.ips :: parses(l)
    ensures Acceptable(c, parses) <==> Unaliased(p) && NoMappedTwin(p) && WellPlaced(c)
  {
    DuplicatesAreAliases(c, p);
    hide IsV4, Unaliased, NoMappedTwin, Distinct, DistinctIps;
  }

  lemma DuplicatesAreAliases(c: Config, p: Policy)
    requires SameDevices(c, p) && ValidInputs(p)
    ensures Distinct(AllMacs(c)) && DistinctIps(AllIps(c)) <==> Unaliased(p) && NoMappedTwin(p)
  {
    hide IpKey, Distinct, DistinctIps, OfKind;
    ValidationGivesDistinct(p);
    DistinctIpsMeans(p.ips);
    if DistinctIps(p.ips) {
      OfKindKeepsDistinct(p.ips, V6);
      TwinsCollide(p);
    }
    if Unaliased(p) { DistinctFromKinds(p.ips); }
  }

  lemma TwinsCollide(p: Policy)
    requires DistinctIps(p.ips)
    ensures NoMappedTwin(p)
  {
    forall l, m | l in p.ips && m in p.ips && l.kind == V4 && m.kind == V6 ensures IpKey(Canon(m)) != Canon(l) {
      var i :| 0 <= i < |p.ips| && p.ips[i] == l;
      var j :| 0 <= j < |p.ips| && p.ips[j] == m;
      assert IpKey(Canon(p.ips[i])) == Canon(l);
    }
  }

  /** With a daemon that has accepted the same devices, effective_enabled means exact sets without further ado. */
  lemma EffectiveWithDaemonIsExact(r: Router, c: Config, parses: Literal -> bool)
    requires r.EffectiveEnabled() && SameDevices(c, r.uci) && Acceptable(c, parses)
    ensures InForce(r.sets, r.uci)
  {
    hide Accepts, Literals, IpKey, Distinct, DistinctIps, InForce;
    DuplicatesAreAliases(c, r.uci);
    EffectiveIsExact(r);
  }
}
