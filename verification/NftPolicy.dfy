/**
 * The policy that package/ils-gateway/root/usr/bin/locspoofctl turns into nft sets: which elements belong in
 * which set, what `validate_inputs` accepts, what `verify_exact_set` can tell, and when `clear` can be trusted.
 */
module NftPolicy {
  import opened Bytes

  datatype Kind = Mac | V4 | V6 | Iface

  /**
   * A configured text: the address it denotes, which of that address's spellings it is, and whether the
   * syntax check accepts it. MACs have spellings by letter case, IPv6 addresses many, IPv4 and names one.
   */
  datatype Literal = Literal(kind: Kind, addr: nat, spelling: nat, ok: bool)

  /** An element as nft stores it. */
  datatype Elem = Elem(kind: Kind, addr: nat)

  datatype Host = Host(name: nat, allowed: bool)

  /** One reading of the UCI configuration. */
  datatype Policy = Policy(macs: seq<Literal>, ips: seq<Literal>, lan: seq<Literal>, block6: bool, hosts: seq<Host>)

  datatype SetName = EnabledV4 | EnabledV6 | EnabledMac | EnabledMacV6 | BlockV6 | BlockMacV6
                   | LanIfaces | TargetV4 | TargetV6 | Monitors

  type Sets = map<SetName, set<Elem>>

  /** The order in which `clear` flushes. */
  const DEVICE: seq<SetName> := [EnabledV4, EnabledV6, EnabledMac, EnabledMacV6, BlockV6, BlockMacV6]

  predicate IsDevice(n: SetName) {
    n.EnabledV4? || n.EnabledV6? || n.EnabledMac? || n.EnabledMacV6? || n.BlockV6? || n.BlockMacV6?
  }

  function Canon(l: Literal): Elem { Elem(l.kind, l.addr) }

  function CanonSet(ls: seq<Literal>): set<Elem> {
    set l | l in ls :: Canon(l)
  }

  function OfKind(ls: seq<Literal>, k: Kind): seq<Literal> {
    if ls == [] then [] else (if ls[0].kind == k then [ls[0]] else []) + OfKind(ls[1..], k)
  }

  const BR_LAN := Literal(Iface, 0, 0, true)

  function Lan(p: Policy): seq<Literal> {
    if p.lan == [] then [BR_LAN] else p.lan
  }

  /** The literals that `verify` expects in a set. */
  function Literals(p: Policy, n: SetName): seq<Literal> {
    match n
    case EnabledV4 => OfKind(p.ips, V4)
    case EnabledV6 => if p.block6 then [] else OfKind(p.ips, V6)
    case EnabledMac => p.macs
    case EnabledMacV6 => if p.block6 then [] else p.macs
    case BlockV6 => if p.block6 then OfKind(p.ips, V6) else []
    case BlockMacV6 => if p.block6 then p.macs else []
    case LanIfaces => Lan(p)
    case _ => []
  }

  function Expected(p: Policy, n: SetName): set<Elem> {
    CanonSet(Literals(p, n))
  }

  function Content(sets: Sets, n: SetName): set<Elem> {
    if n in sets then sets[n] else {}
  }

  // ---- validate_inputs ----

  /** The text that the duplicate check compares: MACs are folded to lower case, everything else is as written. */
  function Text(l: Literal): Literal {
    if l.kind == Mac then l.(spelling := 0) else l
  }

  predicate NoDuplicates(ls: seq<Literal>) {
    forall i, j | 0 <= i < j < |ls| :: Text(ls[i]) != Text(ls[j])
  }

  predicate ValidMac(l: Literal) { l.ok && l.kind == Mac }

  /** Dotted decimals with leading zeros are refused, so an IPv4 address has one accepted spelling. */
  predicate ValidIp(l: Literal) { l.ok && (l.kind == V6 || (l.kind == V4 && l.spelling == 0)) }

  predicate ValidIface(l: Literal) { l.ok && l.kind == Iface && l.spelling == 0 }

  predicate ValidInputs(p: Policy) {
    && NoDuplicates(p.lan) && (forall l | l in p.lan :: ValidIface(l))
    && NoDuplicates(p.macs) && NoDuplicates(p.ips)
    && (forall l | l in p.macs :: ValidMac(l))
    && (forall l | l in p.ips :: ValidIp(l))
  }

  predicate NamesDevice(p: Policy) {
    p.macs != [] || p.ips != []
  }

  // ---- lists that grow ----

  lemma CanonSetAppend(a: seq<Literal>, l: Literal)
    ensures CanonSet(a + [l]) == CanonSet(a) + {Canon(l)}
  {
    forall e ensures e in CanonSet(a + [l]) <==> e in CanonSet(a) + {Canon(l)} {
      if e in CanonSet(a) {
        var x :| x in a && Canon(x) == e;
        assert x in a + [l];
      }
      if e == Canon(l) { assert (a + [l])[|a|] == l; }
    }
  }

  lemma {:induction false} OfKindAppend(a: seq<Literal>, l: Literal, k: Kind)
    ensures OfKind(a + [l], k) == OfKind(a, k) + if l.kind == k then [l] else []
  {
    if a == [] {
      assert [l][1..] == [] && a + [l] == [l];
    } else {
      OfKindAppend(a[1..], l, k);
      var head := if a[0].kind == k then [a[0]] else [];
      var last := if l.kind == k then [l] else [];
      assert (a + [l])[1..] == a[1..] + [l] && (a + [l])[0] == a[0];
      Assoc(head, OfKind(a[1..], k), last);
    }
  }

  lemma CanonSetConcat(a: seq<Literal>, b: seq<Literal>)
    ensures CanonSet(a + b) == CanonSet(a) + CanonSet(b)
  {
    forall e ensures e in CanonSet(a + b) <==> e in CanonSet(a) + CanonSet(b) {
      if e in CanonSet(a) {
        var l :| l in a && Canon(l) == e;
        assert l in a + b;
      }
      if e in CanonSet(b) {
        var l :| l in b && Canon(l) == e;
        assert l in a + b;
      }
    }
  }

  // ---- what exact verification can tell ----

  /** No two literals denote the same element. */
  predicate Distinct(ls: seq<Literal>) {
    forall i, j | 0 <= i < j < |ls| :: Canon(ls[i]) != Canon(ls[j])
  }

  /** verify_exact_set: as many elements as literals, and every literal is in the set. */
  predicate Accepts(actual: set<Elem>, expected: seq<Literal>) {
    |actual| == |expected| && forall l | l in expected :: Canon(l) in actual
  }

  lemma CanonSetHead(ls: seq<Literal>)
    requires ls != []
    ensures CanonSet(ls) == CanonSet(ls[1..]) + {Canon(ls[0])}
  {
    forall e ensures e in CanonSet(ls) <==> e in CanonSet(ls[1..]) + {Canon(ls[0])} {
      if e in CanonSet(ls) && e != Canon(ls[0]) {
        var l :| l in ls && Canon(l) == e;
        assert l in ls[1..];
      }
    }
  }

  lemma DistinctHead(ls: seq<Literal>)
    requires ls != []
    ensures Distinct(ls) <==> Distinct(ls[1..]) && Canon(ls[0]) !in CanonSet(ls[1..])
  {
    var rest := ls[1..];
    assert forall i | 0 <= i < |rest| :: rest[i] == ls[i + 1] && rest[i] in rest;
    if Distinct(ls) {
      forall l | l in rest ensures Canon(l) != Canon(ls[0]) {
        var i :| 0 <= i < |rest| && rest[i] == l;
        assert ls[i + 1] == l;
      }
    }
    if Distinct(rest) && Canon(ls[0]) !in CanonSet(rest) {
      forall i, j | 0 <= i < j < |ls| ensures Canon(ls[i]) != Canon(ls[j]) {
        assert rest[j - 1] == ls[j] && Canon(ls[j]) in CanonSet(rest);
        if i > 0 { assert rest[i - 1] == ls[i]; }
      }
    }
  }

  lemma {:induction false} CanonSetSize(ls: seq<Literal>)
    ensures |CanonSet(ls)| <= |ls|
    ensures |CanonSet(ls)| == |ls| <==> Distinct(ls)
  {
    if ls != [] {
      hide CanonSet, Distinct;
      CanonSetSize(ls[1..]);
      CanonSetHead(ls);
      DistinctHead(ls);
    }
  }

  lemma SubsetOfSameSize<T>(a: set<T>, b: set<T>)
    requires a <= b && |a| == |b|
    ensures a == b
  {
    if a != b {
      var x :| x in b && x !in a;
      assert a <= b - {x};
      SubsetSize(a, b - {x});
    }
  }

  lemma {:induction false} SubsetSize<T>(a: set<T>, b: set<T>)
    requires a <= b
    ensures |a| <= |b|
    decreases a
  {
    if a != {} {
      var x :| x in a;
      SubsetSize(a - {x}, b - {x});
    }
  }

  /** A set that verification accepts is the policy's set exactly when no two literals denote the same element. */
  lemma AcceptedIsExact(actual: set<Elem>, expected: seq<Literal>)
    requires Accepts(actual, expected)
    ensures actual == CanonSet(expected) <==> Distinct(expected)
  {
    CanonSetSize(expected);
    if Distinct(expected) {
      assert CanonSet(expected) <= actual;
      SubsetOfSameSize(CanonSet(expected), actual);
    }
  }

  /** The policy's set is accepted exactly when no two literals denote the same element. */
  lemma ExactIsAccepted(expected: seq<Literal>)
    ensures Accepts(CanonSet(expected), expected) <==> Distinct(expected)
  {
    CanonSetSize(expected);
  }

  /** Two spellings of ::1 and a stale ::2: accepted, and not the policy. */
  lemma AliasesHideStaleElements()
    ensures var one, again, two := Literal(V6, 1, 0, true), Literal(V6, 1, 1, true), Literal(V6, 2, 0, true);
      var p := Policy([], [one, again], [], false, []);
      && ValidInputs(p)
      && Accepts({Canon(one), Canon(two)}, Literals(p, EnabledV6))
      && {Canon(one), Canon(two)} != Expected(p, EnabledV6)
  {
    var one, again, two := Literal(V6, 1, 0, true), Literal(V6, 1, 1, true), Literal(V6, 2, 0, true);
    var ls := [one, again];
    assert OfKind([again], V6) == [again] && OfKind(ls, V6) == [one] + [again] by {
      assert ls[1..] == [again] && [again][1..] == [];
    }
    assert |{Canon(one), Canon(two)}| == 2;
    assert Canon(two) !in CanonSet(ls);
    assert [one] + [again] == ls;
  }

  lemma {:induction false} OfKindFrom(ls: seq<Literal>, k: Kind)
    ensures forall l | l in OfKind(ls, k) :: l in ls && l.kind == k
    ensures forall l | l in ls && l.kind == k :: l in OfKind(ls, k)
  {
    if ls != [] { OfKindFrom(ls[1..], k); }
  }

  lemma {:induction false} OfKindKeepsNoDuplicates(ls: seq<Literal>, k: Kind)
    requires NoDuplicates(ls)
    ensures NoDuplicates(OfKind(ls, k))
  {
    if ls != [] {
      var rest := ls[1..];
      assert forall i | 0 <= i < |rest| :: rest[i] == ls[i + 1];
      OfKindKeepsNoDuplicates(rest, k);
      OfKindFrom(rest, k);
      if ls[0].kind == k {
        var kept := OfKind(rest, k);
        forall j | 0 <= j < |kept| ensures Text(ls[0]) != Text(kept[j]) {
          var i :| 0 <= i < |rest| && rest[i] == kept[j];
        }
      }
    }
  }

  /** Where a text has one spelling, texts that differ denote elements that differ. */
  lemma OneSpellingEach(ls: seq<Literal>)
    requires NoDuplicates(ls) && forall l | l in ls :: l.kind == Mac || l.spelling == 0
    requires forall l, m | l in ls && m in ls :: l.kind == m.kind && l.ok == m.ok
    ensures Distinct(ls)
  {
    forall i, j | 0 <= i < j < |ls| ensures Canon(ls[i]) != Canon(ls[j]) {
      assert ls[i] in ls && ls[j] in ls && Text(ls[i]) != Text(ls[j]);
    }
  }

  lemma DistinctIsOneSpelling(ls: seq<Literal>)
    requires NoDuplicates(ls) && forall l | l in ls :: l.kind == V6 && l.ok
    ensures Distinct(ls) <==> forall l, m | l in ls && m in ls && l.addr == m.addr :: l.spelling == m.spelling
  {
    if Distinct(ls) {
      forall l, m | l in ls && m in ls && l.addr == m.addr ensures l.spelling == m.spelling {
        var i :| 0 <= i < |ls| && ls[i] == l;
        var j :| 0 <= j < |ls| && ls[j] == m;
        assert Canon(ls[i]) == Canon(ls[j]);
        assert i == j;
      }
    } else {
      var i, j :| 0 <= i < j < |ls| && Canon(ls[i]) == Canon(ls[j]);
      assert ls[i] in ls && ls[j] in ls && Text(ls[i]) != Text(ls[j]);
    }
  }

  /**
   * What validation supplies: MACs, IPv4 addresses and interfaces are distinct as elements; for IPv6 that
   * holds exactly when no address is written in two ways.
   */
  lemma ValidationGivesDistinct(p: Policy)
    requires ValidInputs(p)
    ensures Distinct(p.macs) && Distinct(OfKind(p.ips, V4)) && Distinct(Lan(p))
    ensures Distinct(OfKind(p.ips, V6)) <==>
            forall l, m | l in p.ips && m in p.ips && l.kind == V6 && m.kind == V6 && l.addr == m.addr ::
              l.spelling == m.spelling
  {
    hide OfKind, Distinct;
    OfKindFrom(p.ips, V4);
    OfKindFrom(p.ips, V6);
    OfKindKeepsNoDuplicates(p.ips, V4);
    OfKindKeepsNoDuplicates(p.ips, V6);
    OneSpellingEach(p.macs);
    OneSpellingEach(OfKind(p.ips, V4));
    OneSpellingEach(Lan(p));
    DistinctIsOneSpelling(OfKind(p.ips, V6));
  }

  /** No literal of the policy aliases another in the set it goes to. */
  ghost predicate Unaliased(p: Policy) {
    Distinct(OfKind(p.ips, V6))
  }

  lemma UnaliasedIsDistinct(p: Policy, n: SetName)
    requires ValidInputs(p) && Unaliased(p)
    ensures Distinct(Literals(p, n))
  {
    ValidationGivesDistinct(p);
  }

  /**
   * What validate_inputs accepts: well-formed MACs, addresses and interface names; no MAC and no interface twice,
   * however it is spelled, and no address twice in one spelling.
   */
  lemma AcceptedPolicies(p: Policy)
    ensures ValidInputs(p) <==>
      && (forall l | l in p.macs :: l.ok && l.kind == Mac)
      && (forall l | l in p.ips :: l.ok && (l.kind == V6 || (l.kind == V4 && l.spelling == 0)))
      && (forall l | l in p.lan :: l.ok && l.kind == Iface && l.spelling == 0)
      && (forall i, j | 0 <= i < j < |p.macs| :: p.macs[i].addr != p.macs[j].addr)
      && (forall i, j | 0 <= i < j < |p.lan| :: p.lan[i].addr != p.lan[j].addr)
      && (forall i, j | 0 <= i < j < |p.ips| :: p.ips[i] != p.ips[j])
  {
    hide NoDuplicates, Text;
    if (forall l | l in p.macs :: ValidMac(l)) && (forall l | l in p.lan :: ValidIface(l))
       && (forall l | l in p.ips :: ValidIp(l)) {
      TextsOfOneKind(p.macs, Mac);
      TextsOfOneKind(p.lan, Iface);
      TextsOfAddresses(p.ips);
    }
  }

  lemma TextsOfOneKind(ls: seq<Literal>, k: Kind)
    requires k == Mac || k == Iface
    requires forall l | l in ls :: l.kind == k && l.ok && (k == Iface ==> l.spelling == 0)
    ensures NoDuplicates(ls) <==> forall i, j | 0 <= i < j < |ls| :: ls[i].addr != ls[j].addr
  {
    forall i, j | 0 <= i < j < |ls| ensures Text(ls[i]) != Text(ls[j]) <==> ls[i].addr != ls[j].addr {
      assert ls[i] in ls && ls[j] in ls;
    }
  }

  lemma TextsOfAddresses(ls: seq<Literal>)
    requires forall l | l in ls :: l.kind != Mac
    ensures NoDuplicates(ls) <==> forall i, j | 0 <= i < j < |ls| :: ls[i] != ls[j]
  {
    forall i, j | 0 <= i < j < |ls| ensures Text(ls[i]) == ls[i] && Text(ls[j]) == ls[j] {
      assert ls[i] in ls && ls[j] in ls;
    }
  }

  // ---- the policy, set by set ----

  function Macs(p: Policy): set<Elem> {
    set l | l in p.macs :: Elem(Mac, l.addr)
  }

  function Addresses(p: Policy, k: Kind): set<Elem> {
    set l | l in p.ips && l.kind == k :: Elem(k, l.addr)
  }

  /** The configured interfaces, or the default one when none is configured. */
  function Interfaces(p: Policy): set<Elem> {
    if p.lan == [] then {Elem(Iface, 0)} else set l | l in p.lan :: Elem(Iface, l.addr)
  }

  /** Every MAC and address in the sets of its side, and nothing else; IPv6 is redirected, or blocked. */
  ghost predicate DevicesInForce(sets: Sets, p: Policy) {
    && Content(sets, EnabledMac) == Macs(p)
    && Content(sets, EnabledV4) == Addresses(p, V4)
    && Content(sets, EnabledMacV6) == (if p.block6 then {} else Macs(p))
    && Content(sets, EnabledV6) == (if p.block6 then {} else Addresses(p, V6))
    && Content(sets, BlockMacV6) == (if p.block6 then Macs(p) else {})
    && Content(sets, BlockV6) == (if p.block6 then Addresses(p, V6) else {})
  }

  ghost predicate InForce(sets: Sets, p: Policy) {
    DevicesInForce(sets, p) && Content(sets, LanIfaces) == Interfaces(p)
  }

  /** Some of it, and nothing else. */
  ghost predicate PartOf(sets: Sets, p: Policy) {
    && Content(sets, EnabledMac) <= Macs(p)
    && Content(sets, EnabledV4) <= Addresses(p, V4)
    && Content(sets, EnabledMacV6) <= (if p.block6 then {} else Macs(p))
    && Content(sets, EnabledV6) <= (if p.block6 then {} else Addresses(p, V6))
    && Content(sets, BlockMacV6) <= (if p.block6 then Macs(p) else {})
    && Content(sets, BlockV6) <= (if p.block6 then Addresses(p, V6) else {})
  }

  /** What verify expects in each set is the policy. */
  lemma ExpectedIs(p: Policy)
    requires ValidInputs(p)
    ensures Expected(p, EnabledMac) == Macs(p) && Expected(p, EnabledV4) == Addresses(p, V4)
    ensures Expected(p, EnabledMacV6) == (if p.block6 then {} else Macs(p))
    ensures Expected(p, EnabledV6) == (if p.block6 then {} else Addresses(p, V6))
    ensures Expected(p, BlockMacV6) == (if p.block6 then Macs(p) else {})
    ensures Expected(p, BlockV6) == (if p.block6 then Addresses(p, V6) else {})
    ensures Expected(p, LanIfaces) == Interfaces(p)
  {
    hide OfKind;
    OfKindIs(p.ips, V4);
    OfKindIs(p.ips, V6);
    assert CanonSet(p.macs) == Macs(p);
    if p.lan == [] {
      assert BR_LAN in [BR_LAN] && Canon(BR_LAN) == Elem(Iface, 0);
    } else {
      assert CanonSet(p.lan) == Interfaces(p);
    }
  }

  lemma OfKindIs(ls: seq<Literal>, k: Kind)
    ensures CanonSet(OfKind(ls, k)) == set l | l in ls && l.kind == k :: Elem(k, l.addr)
  {
    OfKindFrom(ls, k);
  }

  lemma InForceIsExact(sets: Sets, p: Policy)
    requires ValidInputs(p)
    ensures DevicesInForce(sets, p) <==> DeviceExact(sets, p)
    ensures InForce(sets, p) <==> DeviceExact(sets, p) && Content(sets, LanIfaces) == Expected(p, LanIfaces)
    ensures Within(sets, p) ==> PartOf(sets, p)
  {
    hide Expected, Macs, Addresses, Interfaces;
    ExpectedIs(p);
    assert IsDevice(EnabledMac) && IsDevice(EnabledV4) && IsDevice(EnabledMacV6) && IsDevice(EnabledV6);
    assert IsDevice(BlockMacV6) && IsDevice(BlockV6);
  }

  // ---- one snapshot at a time ----

  /** The device sets hold nothing but elements of this one policy. */
  ghost predicate Within(sets: Sets, p: Policy) {
    forall n | n in sets && IsDevice(n) :: sets[n] <= Expected(p, n)
  }

  ghost predicate DeviceEmpty(sets: Sets) {
    forall n | n in sets && IsDevice(n) :: sets[n] == {}
  }

  ghost predicate DeviceExact(sets: Sets, p: Policy) {
    forall n | IsDevice(n) :: Content(sets, n) == Expected(p, n)
  }

  /** IPv6 is redirected or blocked, never both. */
  lemma RedirectOrBlock(sets: Sets, p: Policy)
    requires Within(sets, p)
    ensures (Content(sets, EnabledV6) == {} && Content(sets, EnabledMacV6) == {})
         || (Content(sets, BlockV6) == {} && Content(sets, BlockMacV6) == {})
  {
    assert Expected(p, if p.block6 then EnabledV6 else BlockV6) == {};
    assert Expected(p, if p.block6 then EnabledMacV6 else BlockMacV6) == {};
    assert IsDevice(EnabledV6) && IsDevice(EnabledMacV6) && IsDevice(BlockV6) && IsDevice(BlockMacV6);
  }

  /** Within a policy, verification against that same policy is exact even when literals alias. */
  lemma AcceptedWithinIsExact(sets: Sets, p: Policy, n: SetName)
    requires Within(sets, p) && IsDevice(n) && n in sets && Accepts(sets[n], Literals(p, n))
    ensures sets[n] == Expected(p, n) && Distinct(Literals(p, n))
  {
    CanonSetSize(Literals(p, n));
    assert CanonSet(Literals(p, n)) <= sets[n];
    AcceptedIsExact(sets[n], Literals(p, n));
  }

  // ---- clear ----

  /** The sets after `clear` when the flushes of `lost` fail. */
  function AfterClear(sets: Sets, lost: set<SetName>): Sets {
    map n | n in sets :: if IsDevice(n) && n !in lost then {} else sets[n]
  }

  /** clear returns 0: every set whose flush failed was also reported absent. `denied` are the failing lists. */
  predicate ClearSucceeds(sets: Sets, lost: set<SetName>, denied: set<SetName>) {
    forall n | n in DEVICE :: n in sets && n in lost ==> n in denied
  }

  /**
   * A zero return can be trusted exactly when no set with elements had both its flush and its listing fail:
   * a listing that fails is read as "no such set".
   */
  lemma ClearCanBeTrusted(sets: Sets, lost: set<SetName>, denied: set<SetName>)
    requires ClearSucceeds(sets, lost, denied)
    ensures DeviceEmpty(AfterClear(sets, lost)) <==>
            forall n | n in sets && IsDevice(n) && sets[n] != {} :: !(n in lost && n in denied)
  {
    assert forall n | IsDevice(n) :: n in DEVICE by {
      assert DEVICE[0] == EnabledV4 && DEVICE[1] == EnabledV6 && DEVICE[2] == EnabledMac;
      assert DEVICE[3] == EnabledMacV6 && DEVICE[4] == BlockV6 && DEVICE[5] == BlockMacV6;
    }
    if !DeviceEmpty(AfterClear(sets, lost)) {
      var n :| n in sets && IsDevice(n) && AfterClear(sets, lost)[n] != {};
      assert sets[n] != {} && n in lost && n in denied;
    } else {
      forall n | n in sets && IsDevice(n) && sets[n] != {} ensures !(n in lost && n in denied) {
        assert AfterClear(sets, lost)[n] == {};
      }
    }
  }
}
