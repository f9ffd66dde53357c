/**
 * What apply_inner in package/ils-gateway/root/usr/bin/locspoofctl has put into the sets after some of its MACs and
 * addresses, on top of what a clear left behind, and what its verification can say about the result.
 */
module ApplySteps {
  import opened Bytes
  import opened NftPolicy
  import opened Chronicle

  /** The policy's first i MACs and j addresses. */
  function Part(p: Policy, i: nat, j: nat): Policy
    requires i <= |p.macs| && j <= |p.ips|
  {
    p.(macs := p.macs[..i], ips := p.ips[..j])
  }

  function MacV6Set(p: Policy): SetName { if p.block6 then BlockMacV6 else EnabledMacV6 }

  function IpSet(p: Policy, l: Literal): SetName {
    if l.kind == V6 then (if p.block6 then BlockV6 else EnabledV6) else EnabledV4
  }

  /** The device sets hold the policy, and what was in them before. */
  ghost predicate DevicePlus(sets: Sets, base: Sets, p: Policy) {
    forall n | IsDevice(n) :: Content(sets, n) == Content(base, n) + Expected(p, n)
  }

  /** One element has joined the sets in `at`. */
  ghost predicate PlusAt(before: Sets, after: Sets, at: set<SetName>, e: Elem) {
    forall n | IsDevice(n) :: Content(after, n) == Content(before, n) + if n in at then {e} else {}
  }

  lemma PlusNothing(sets: Sets, p: Policy)
    ensures DevicePlus(sets, sets, Part(p, 0, 0))
  {
  }

  lemma PlusAll(p: Policy)
    ensures Part(p, |p.macs|, |p.ips|) == p
  {
    assert p.macs[..|p.macs|] == p.macs && p.ips[..|p.ips|] == p.ips;
  }

  lemma MacExpected(p: Policy, i: nat, n: SetName)
    requires i < |p.macs| && IsDevice(n)
    ensures Expected(Part(p, i + 1, 0), n) ==
      Expected(Part(p, i, 0), n) + if n in {EnabledMac, MacV6Set(p)} then {Canon(p.macs[i])} else {}
  {
    hide OfKind;
    assert p.macs[..i + 1] == p.macs[..i] + [p.macs[i]];
    CanonSetAppend(p.macs[..i], p.macs[i]);
  }

  lemma MacStep(p: Policy, i: nat, base: Sets, before: Sets, after: Sets)
    requires i < |p.macs| && DevicePlus(before, base, Part(p, i, 0))
    requires PlusAt(before, after, {EnabledMac, MacV6Set(p)}, Canon(p.macs[i]))
    ensures DevicePlus(after, base, Part(p, i + 1, 0))
  {
    hide Expected, Part;
    forall n | IsDevice(n) ensures Content(after, n) == Content(base, n) + Expected(Part(p, i + 1, 0), n) {
      MacExpected(p, i, n);
    }
  }

  /** One more address: its literal joins the list of its set and of no other. */
  lemma IpLiterals(p: Policy, j: nat, n: SetName)
    requires j < |p.ips| && p.ips[j].kind in {V4, V6} && IsDevice(n)
    ensures var l := p.ips[j];
      Literals(Part(p, |p.macs|, j + 1), n) ==
      if n == IpSet(p, l) then Literals(Part(p, |p.macs|, j), n) + [l] else Literals(Part(p, |p.macs|, j), n)
  {
    hide OfKind;
    var l, a := p.ips[j], p.ips[..j];
    assert p.ips[..j + 1] == a + [l];
    OfKindAppend(a, l, V4);
    OfKindAppend(a, l, V6);
  }

  lemma IpExpected(p: Policy, j: nat, n: SetName)
    requires j < |p.ips| && p.ips[j].kind in {V4, V6} && IsDevice(n)
    ensures Expected(Part(p, |p.macs|, j + 1), n) ==
      Expected(Part(p, |p.macs|, j), n) + if n == IpSet(p, p.ips[j]) then {Canon(p.ips[j])} else {}
  {
    hide Literals, CanonSet, Part;
    IpLiterals(p, j, n);
    CanonSetAppend(Literals(Part(p, |p.macs|, j), n), p.ips[j]);
  }

  lemma IpStep(p: Policy, j: nat, base: Sets, before: Sets, after: Sets)
    requires j < |p.ips| && p.ips[j].kind in {V4, V6} && DevicePlus(before, base, Part(p, |p.macs|, j))
    requires PlusAt(before, after, {IpSet(p, p.ips[j])}, Canon(p.ips[j]))
    ensures DevicePlus(after, base, Part(p, |p.macs|, j + 1))
  {
    hide Expected, Part;
    forall n | IsDevice(n) ensures Content(after, n) == Content(base, n) + Expected(Part(p, |p.macs|, j + 1), n) {
      IpExpected(p, j, n);
    }
  }

  lemma PlusTwice(a: Sets, b: Sets, c: Sets, first: SetName, second: SetName, e: Elem)
    requires PlusAt(a, b, {first}, e) && PlusAt(b, c, {second}, e)
    ensures PlusAt(a, c, {first, second}, e)
  {
  }

  // ---- what is left behind ----

  /** The policy on top of what was left: it is within the policy exactly when that was, and then it is exact. */
  lemma LeftoverDecides(base: Sets, sets: Sets, p: Policy)
    requires DevicePlus(sets, base, p)
    ensures Within(sets, p) <==> forall n | IsDevice(n) :: Content(base, n) <= Expected(p, n)
    ensures Within(sets, p) <==> DeviceExact(sets, p)
    ensures DeviceEmpty(base) ==> DeviceExact(sets, p)
  {
    hide Expected;
    if Within(sets, p) {
      forall n | IsDevice(n) ensures Content(base, n) <= Expected(p, n) && Content(sets, n) == Expected(p, n) {
        assert Content(sets, n) <= Expected(p, n);
      }
    }
    if forall n | IsDevice(n) :: Content(base, n) <= Expected(p, n) {
      forall n | IsDevice(n) ensures Content(sets, n) == Expected(p, n) {
      }
    }
  }

  /**
   * When flush and listing of a set with an element both fail, clear returns 0, and whatever apply then leaves is a
   * mix of the two policies, within neither.
   */
  lemma MixedWhenListingLies(after: Sets)
    ensures var one, two := Literal(Mac, 1, 0, true), Literal(Mac, 2, 0, true);
      var old1, new2 := Policy([one], [], [], false, []), Policy([two], [], [], false, []);
      var sets: Sets := map[EnabledMac := {Canon(one)}];
      && ValidInputs(old1) && ValidInputs(new2) && Within(sets, old1)
      && ClearSucceeds(sets, {EnabledMac}, {EnabledMac})
      && (DevicePlus(after, AfterClear(sets, {EnabledMac}), new2) ==> !Within(after, old1) && !Within(after, new2))
  {
    var one, two := Literal(Mac, 1, 0, true), Literal(Mac, 2, 0, true);
    var new2 := Policy([two], [], [], false, []);
    var sets: Sets := map[EnabledMac := {Canon(one)}];
    assert CanonSet([one]) == {Canon(one)} && CanonSet([two]) == {Canon(two)};
    if DevicePlus(after, AfterClear(sets, {EnabledMac}), new2) {
      assert IsDevice(EnabledMac) && Canon(two) in Expected(new2, EnabledMac);
      assert Canon(one) in Content(after, EnabledMac) && Canon(two) in Content(after, EnabledMac);
    }
  }

  // ---- verification ----

  predicate Verified(n: SetName) {
    IsDevice(n) || n == LanIfaces
  }

  /** What `verify` checks. */
  ghost predicate VerifyPasses(sets: Sets, p: Policy) {
    && AllPresent(sets) && TargetsPresent(sets)
    && ValidInputs(p) && NamesDevice(p)
    && forall n | Verified(n) :: n in sets && Accepts(sets[n], Literals(p, n))
  }

  /** What apply has put into the sets passes verification, unless two literals are the same element. */
  lemma ExactVerifies(sets: Sets, p: Policy)
    requires ValidInputs(p) && NamesDevice(p)
    requires DeviceExact(sets, p) && Content(sets, LanIfaces) == Expected(p, LanIfaces)
    requires AllPresent(sets) && TargetsPresent(sets)
    ensures Unaliased(p) ==> VerifyPasses(sets, p)
  {
    hide ValidInputs, Distinct, Literals;
    AllAre();
    if Unaliased(p) {
      forall n | Verified(n) ensures n in sets && Accepts(sets[n], Literals(p, n)) {
        assert sets[n] == Expected(p, n);
        UnaliasedIsDistinct(p, n);
        ExactIsAccepted(Literals(p, n));
      }
    }
  }

  /** Where a policy names no address in two ways, verify passes if and only if exactly that policy is in force. */
  lemma VerifiesExactly(sets: Sets, p: Policy)
    requires AllPresent(sets) && TargetsPresent(sets) && ValidInputs(p) && NamesDevice(p)
    requires forall l, m | l in p.ips && m in p.ips && l.kind == V6 && m.kind == V6 && l.addr == m.addr ::
      l.spelling == m.spelling
    ensures VerifyPasses(sets, p) <==> InForce(sets, p)
  {
    hide VerifyPasses, InForce, DevicesInForce, Distinct, ValidInputs, AllPresent, TargetsPresent;
    ValidationGivesDistinct(p);
    InForceIsExact(sets, p);
    if VerifyPasses(sets, p) { VerifiedIsExact(sets, p); }
    if InForce(sets, p) { ExactVerifies(sets, p); }
  }

  /** A policy that passes is in force element for element, unless two literals are one element. */
  lemma VerifiedIsExact(sets: Sets, p: Policy)
    requires VerifyPasses(sets, p) && Unaliased(p)
    ensures DeviceExact(sets, p) && Content(sets, LanIfaces) == Expected(p, LanIfaces)
  {
    hide Distinct, Accepts, ValidInputs, Literals;
    forall n | Verified(n) ensures Content(sets, n) == Expected(p, n) {
      UnaliasedIsDistinct(p, n);
      AcceptedIsExact(sets[n], Literals(p, n));
    }
  }
}
