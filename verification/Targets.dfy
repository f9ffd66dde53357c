/** The resolution of the configured hosts in package/ils-gateway/root/usr/bin/locspoofctl, lines 410 to 442. */
module Targets {
  import opened Bytes
  import opened NftPolicy

  /** What the resolver's output is reduced to: addresses of either family. */
  type Address = l: Literal | l.kind == V4 || l.kind == V6 witness Literal(V4, 0, 0, true)

  type Resolver = Host -> seq<Address>

  ghost function Resolved(hosts: seq<Host>, resolve: Resolver, k: Kind): set<Elem> {
    set h, l | h in hosts && l in resolve(h) && l.kind == k :: Elem(k, l.addr)
  }

  ghost predicate HostOk(h: Host, resolve: Resolver) {
    h.allowed && resolve(h) != [] && forall l | l in resolve(h) :: ValidIp(l)
  }

  /** Every host is allowed and answers with at least one address, all of them well-formed. */
  ghost predicate ResolverOk(hosts: seq<Host>, resolve: Resolver) {
    hosts != [] && forall h | h in hosts :: HostOk(h, resolve)
  }

  lemma ResolvedStep(hosts: seq<Host>, h: Host, resolve: Resolver, k: Kind)
    ensures Resolved(hosts + [h], resolve, k) == Resolved(hosts, resolve, k) + CanonSet(OfKind(resolve(h), k))
  {
    OfKindFrom(resolve(h), k);
    forall e
      ensures e in Resolved(hosts + [h], resolve, k) <==>
              e in Resolved(hosts, resolve, k) + CanonSet(OfKind(resolve(h), k))
    {
      if e in Resolved(hosts, resolve, k) {
        var g, l :| g in hosts && l in resolve(g) && l.kind == k && Canon(l) == e;
        assert g in hosts + [h];
      }
      if e in CanonSet(OfKind(resolve(h), k)) {
        var l :| l in OfKind(resolve(h), k) && Canon(l) == e;
        assert (hosts + [h])[|hosts|] == h && l in resolve(h);
      }
    }
  }

  /** The addresses of one host, sorted into the two files; a malformed one refuses the host. */
  method SortAnswer(answer: seq<Address>) returns (ok: bool, v4: seq<Literal>, v6: seq<Literal>)
    ensures ok <==> answer != [] && forall l | l in answer :: ValidIp(l)
    ensures ok ==> v4 == OfKind(answer, V4) && v6 == OfKind(answer, V6)
  {
    v4, v6 := [], [];
    var hostOk := false;
    for i := 0 to |answer|
      invariant hostOk <==> i > 0
      invariant forall l | l in answer[..i] :: ValidIp(l)
      invariant v4 == OfKind(answer[..i], V4) && v6 == OfKind(answer[..i], V6)
    {
      var l := answer[i];
      assert answer[..i + 1] == answer[..i] + [l];
      OfKindAppend(answer[..i], l, V4);
      OfKindAppend(answer[..i], l, V6);
      if !ValidIp(l) {
        assert l in answer;
        return false, v4, v6;
      }
      if l.kind == V4 { v4 := v4 + [l]; } else { v6 := v6 + [l]; }
      hostOk := true;
    }
    assert answer[..|answer|] == answer;
    ok := hostOk;
  }

  /** The first host loop: every host is on the list. */
  method AllAllowed(hosts: seq<Host>) returns (ok: bool)
    ensures ok <==> forall h | h in hosts :: h.allowed
  {
    for i := 0 to |hosts|
      invariant forall j | 0 <= j < i :: hosts[j].allowed
    {
      if !hosts[i].allowed {
        assert hosts[i] in hosts;
        return false;
      }
    }
    ok := true;
  }

  /** What the second loop has collected from some hosts. */
  ghost predicate Collected(hosts: seq<Host>, resolve: Resolver, v4: seq<Literal>, v6: seq<Literal>) {
    && CanonSet(v4) == Resolved(hosts, resolve, V4) && CanonSet(v6) == Resolved(hosts, resolve, V6)
    && (hosts != [] ==> CanonSet(v4) != {} || CanonSet(v6) != {})
  }

  lemma CollectOne(hosts: seq<Host>, h: Host, resolve: Resolver, v4: seq<Literal>, v6: seq<Literal>)
    requires Collected(hosts, resolve, v4, v6) && resolve(h) != []
    ensures Collected(hosts + [h], resolve, v4 + OfKind(resolve(h), V4), v6 + OfKind(resolve(h), V6))
  {
    hide OfKind, CanonSet, Resolved;
    ResolvedStep(hosts, h, resolve, V4);
    ResolvedStep(hosts, h, resolve, V6);
    CanonSetConcat(v4, OfKind(resolve(h), V4));
    CanonSetConcat(v6, OfKind(resolve(h), V6));
    SomeAddress(resolve(h));
  }

  /** The two host loops of refresh_targets: all hosts are checked, then each is resolved. */
  method CollectTargets(hosts: seq<Host>, resolve: Resolver) returns (ok: bool, v4: seq<Literal>, v6: seq<Literal>)
    ensures ok <==> ResolverOk(hosts, resolve)
    ensures ok ==> CanonSet(v4) == Resolved(hosts, resolve, V4) && CanonSet(v6) == Resolved(hosts, resolve, V6)
    ensures ok ==> CanonSet(v4) != {} || CanonSet(v6) != {}
  {
    hide OfKind, CanonSet, ValidIp, Resolved;
    v4, v6 := [], [];
    ok := AllAllowed(hosts);
    if !ok { return; }
    if hosts == [] { return false, v4, v6; }
    NothingCollected(resolve);
    for i := 0 to |hosts|
      invariant forall j | 0 <= j < i :: HostOk(hosts[j], resolve)
      invariant Collected(hosts[..i], resolve, v4, v6)
    {
      var h := hosts[i];
      assert h in hosts && hosts[..i + 1] == hosts[..i] + [h];
      var answered, a4, a6 := SortAnswer(resolve(h));
      if !answered { return false, v4, v6; }
      CollectOne(hosts[..i], h, resolve, v4, v6);
      v4, v6 := v4 + a4, v6 + a6;
    }
    assert hosts[..|hosts|] == hosts;
    ok := true;
  }

  lemma NothingCollected(resolve: Resolver)
    ensures Collected([], resolve, [], [])
  {
  }

  lemma SomeAddress(answer: seq<Address>)
    requires answer != []
    ensures CanonSet(OfKind(answer, V4)) != {} || CanonSet(OfKind(answer, V6)) != {}
  {
    OfKindFrom(answer, V4);
    OfKindFrom(answer, V6);
    var l := answer[0];
    assert Canon(l) in CanonSet(OfKind(answer, l.kind));
  }
}
