/**
 * Profile activation with rollback, package/ils-gateway/root/usr/bin/locspoof-profile, and the selection of the
 * profile in force at the end of ParseUCI in internal/config/config.go.
 */
module Profiles {
  import opened Bytes

  /**
   * A profile section: its name, the text of its active option ("" when there is none), which coordinates it
   * has, and whether Profile.Validate accepts it.
   */
  datatype Section = Section(name: string, active: string, lat: bool, lon: bool, valid: bool)

  // ---- selection ----

  const SPELLS_TRUE: seq<string> := ["1", "t", "T", "TRUE", "true", "True"]
  const SPELLS_FALSE: seq<string> := ["0", "f", "F", "FALSE", "false", "False"]

  /** strconv.ParseBool; an option that is not there leaves the profile inactive. */
  predicate Active(s: Section) { s.active in SPELLS_TRUE }

  /** Which texts switch a profile on, and which are refused. */
  lemma ActiveTexts(s: Section)
    ensures Active(s) <==> s.active in {"1", "t", "T", "true", "True", "TRUE"}
    ensures BadText(s) <==>
      s.active !in {"", "1", "t", "T", "true", "True", "TRUE", "0", "f", "F", "false", "False", "FALSE"}
  {
    assert SPELLS_TRUE[0] == "1" && SPELLS_TRUE[1] == "t" && SPELLS_TRUE[2] == "T";
    assert SPELLS_TRUE[3] == "TRUE" && SPELLS_TRUE[4] == "true" && SPELLS_TRUE[5] == "True";
    assert SPELLS_FALSE[0] == "0" && SPELLS_FALSE[1] == "f" && SPELLS_FALSE[2] == "F";
    assert SPELLS_FALSE[3] == "FALSE" && SPELLS_FALSE[4] == "false" && SPELLS_FALSE[5] == "False";
  }

  predicate BadText(s: Section) {
    s.active != "" && s.active !in SPELLS_TRUE && s.active !in SPELLS_FALSE
  }

  datatype Problem = MalformedActive | OneCoordinate | InvalidProfile | ActiveWithoutCoordinates | MultipleActive

  datatype Selection = Refused(problem: Problem) | Chosen(index: nat) | NoProfile

  /** A section that is refused on its own. */
  predicate Bad(s: Section) {
    BadText(s) || s.lat != s.lon || (s.lat && !s.valid) || (Active(s) && !s.lat)
  }

  function Complaint(s: Section): (r: Problem)
    requires Bad(s) && !BadText(s)
    ensures r == OneCoordinate <==> s.lat != s.lon
    ensures r == InvalidProfile <==> s.lat && s.lon && !s.valid
    ensures r == ActiveWithoutCoordinates <==> Active(s) && !s.lat && !s.lon
  {
    if s.lat != s.lon then OneCoordinate else if s.lat && !s.valid then InvalidProfile else ActiveWithoutCoordinates
  }

  predicate OnlyActive(ss: seq<Section>, i: nat) {
    i < |ss| && Active(ss[i]) && forall j | 0 <= j < |ss| && j != i :: !Active(ss[j])
  }

  predicate OnlyCoordinates(ss: seq<Section>, i: nat) {
    i < |ss| && ss[i].lat && forall j | 0 <= j < |ss| && j != i :: !ss[j].lat
  }

  predicate LastLocation(ss: seq<Section>, i: nat) {
    && i < |ss| && ss[i].lat && ss[i].name == "location"
    && forall j | i < j < |ss| :: !(ss[j].lat && ss[j].name == "location")
  }

  /** Which profile is in force: the active one, else the only one, else the last called "location". */
  ghost predicate InForce(ss: seq<Section>, i: nat) {
    || OnlyActive(ss, i)
    || ((forall s | s in ss :: !Active(s))
        && (OnlyCoordinates(ss, i) || ((forall j :: !OnlyCoordinates(ss, j)) && LastLocation(ss, i))))
  }

  /** At most one profile is in force. */
  lemma InForceIsUnique(ss: seq<Section>, i: nat, j: nat)
    requires InForce(ss, i) && InForce(ss, j)
    ensures i == j
  {
    hide Active;
    if OnlyActive(ss, i) { assert ss[i] in ss; }
    if OnlyActive(ss, j) { assert ss[j] in ss; }
  }

  ghost predicate TwoActive(ss: seq<Section>) {
    exists i: nat, j: nat :: i < j < |ss| && Active(ss[i]) && Active(ss[j])
  }

  /** What the loop over the profiles has counted in the first n: the active ones, */
  ghost predicate CountedActive(ss: seq<Section>, n: nat, actives: nat, chosen: int) {
    && n <= |ss|
    && (actives == 0 ==> forall j | 0 <= j < n :: !Active(ss[j]))
    && (actives == 1 ==> 0 <= chosen < n && Active(ss[chosen]))
    && (actives == 1 ==> forall j | 0 <= j < n && j != chosen :: !Active(ss[j]))
    && (actives > 1 ==> 0 <= chosen < n && Active(ss[chosen]) && TwoActive(ss))
  }

  /** those with coordinates, */
  ghost predicate CountedCoords(ss: seq<Section>, n: nat, withCoords: nat, first: int) {
    && n <= |ss|
    && (withCoords == 0 ==> forall j | 0 <= j < n :: !ss[j].lat)
    && (withCoords > 0 ==> 0 <= first < n && ss[first].lat)
    && (withCoords == 1 ==> forall j | 0 <= j < n && j != first :: !ss[j].lat)
    && (withCoords > 1 ==> exists j :: first < j < n && ss[j].lat)
  }

  /** and the last one called "location". */
  ghost predicate CountedLegacy(ss: seq<Section>, n: nat, legacy: int) {
    && n <= |ss|
    && (legacy >= 0 ==> legacy < n && ss[legacy].lat && ss[legacy].name == "location")
    && (forall j | 0 <= j < n && legacy < j :: !(ss[j].lat && ss[j].name == "location"))
  }

  /** The choice after the loop. */
  method Choose(ss: seq<Section>, actives: nat, chosen: int, withCoords: nat, first: int, legacy: int)
    returns (r: Selection)
    requires CountedActive(ss, |ss|, actives, chosen) && CountedCoords(ss, |ss|, withCoords, first)
    requires CountedLegacy(ss, |ss|, legacy)
    ensures r.Refused? ==> r.problem == MultipleActive
    ensures r.Refused? <==> TwoActive(ss)
    ensures r.Chosen? ==> InForce(ss, r.index)
    ensures r.NoProfile? ==> forall i :: !InForce(ss, i)
  {
    hide Active;
    assert forall i | 0 <= i < |ss| :: ss[i] in ss;
    if actives > 1 { return Refused(MultipleActive); }
    if actives == 1 { return Chosen(chosen); }
    if withCoords == 1 { return Chosen(first); }
    assert forall j :: !OnlyCoordinates(ss, j);
    if legacy >= 0 { return Chosen(legacy); }
    return NoProfile;
  }

  /** One profile in the loop: refused on its own, or counted. */
  method Take(s: Section) returns (problem: Option<Problem>)
    ensures problem.None? <==> !Bad(s) || BadText(s)
    ensures problem.Some? ==> problem == Some(Complaint(s))
  {
    problem := None;
    if BadText(s) { return; }
    if s.lat != s.lon { return Some(OneCoordinate); }
    if s.lat && !s.valid { return Some(InvalidProfile); }
    if Active(s) && !s.lat { return Some(ActiveWithoutCoordinates); }
  }

  /** A malformed active option stops the parser at its line, before any profile is looked at. */
  method ReadActiveOptions(ss: seq<Section>) returns (ok: bool)
    ensures ok <==> forall s | s in ss :: !BadText(s)
  {
    for n := 0 to |ss|
      invariant forall j | 0 <= j < n :: !BadText(ss[j])
    {
      if BadText(ss[n]) {
        assert ss[n] in ss;
        return false;
      }
    }
    ok := true;
  }

  /** The loop over the profiles and the choice after it. */
  method Select(ss: seq<Section>) returns (r: Selection)
    ensures r.Chosen? ==> InForce(ss, r.index)
    ensures r.Chosen? ==> ss[r.index].lat && ss[r.index].lon && ss[r.index].valid
    ensures r.NoProfile? ==> forall i :: !InForce(ss, i)
    ensures r.Refused? <==> TwoActive(ss) || exists s :: s in ss && Bad(s)
    ensures r == Refused(MultipleActive) <==> TwoActive(ss) && forall s | s in ss :: !Bad(s)
    ensures r == Refused(MalformedActive) <==> exists s :: s in ss && BadText(s)
    // otherwise the first section that is refused on its own names the problem
    ensures r.Refused? && !r.problem.MultipleActive? && !r.problem.MalformedActive? ==>
      exists n: nat :: FirstBad(ss, n) && r.problem == Complaint(ss[n])
  {
    hide Active, InForce, TwoActive;
    var readable := ReadActiveOptions(ss);
    if !readable { return Refused(MalformedActive); }
    var actives, withCoords: nat := 0, 0;
    var chosen, first, legacy := -1, -1, -1;
    NothingCounted(ss);
    for n := 0 to |ss|
      invariant CountedActive(ss, n, actives, chosen)
      invariant CountedCoords(ss, n, withCoords, first)
      invariant CountedLegacy(ss, n, legacy)
      invariant forall j | 0 <= j < n :: !Bad(ss[j])
    {
      hide Bad, CountedActive, CountedCoords, CountedLegacy;
      var s := ss[n];
      assert s in ss;
      var problem := Take(s);
      if problem.Some? {
        assert FirstBad(ss, n);
        return Refused(problem.value);
      }
      CountActive(ss, n, actives, chosen);
      CountCoords(ss, n, withCoords, first);
      CountLegacy(ss, n, legacy);
      if s.lat {
        if withCoords == 0 { first := n; }
        withCoords := withCoords + 1;
        if s.name == "location" { legacy := n; }
      }
      if Active(s) {
        actives, chosen := actives + 1, n;
      }
    }
    r := Choose(ss, actives, chosen, withCoords, first, legacy);
    if r.Chosen? { ChosenIsWhole(ss, r.index); }
  }

  /** Where no section is refused, the one in force has both coordinates and is valid. */
  lemma ChosenIsWhole(ss: seq<Section>, i: nat)
    requires InForce(ss, i) && forall j | 0 <= j < |ss| :: !Bad(ss[j])
    ensures i < |ss| && ss[i].lat && ss[i].lon && ss[i].valid
  {
    hide Active, BadText;
  }

  ghost predicate FirstBad(ss: seq<Section>, n: nat) {
    n < |ss| && Bad(ss[n]) && !BadText(ss[n]) && forall j | 0 <= j < n :: !Bad(ss[j])
  }

  lemma NothingCounted(ss: seq<Section>)
    ensures CountedActive(ss, 0, 0, -1) && CountedCoords(ss, 0, 0, -1) && CountedLegacy(ss, 0, -1)
  {
  }

  lemma CountActive(ss: seq<Section>, n: nat, actives: nat, chosen: int)
    requires n < |ss| && CountedActive(ss, n, actives, chosen)
    ensures CountedActive(ss, n + 1, if Active(ss[n]) then actives + 1 else actives,
                          if Active(ss[n]) then n else chosen)
  {
    hide Active;
  }

  lemma CountCoords(ss: seq<Section>, n: nat, withCoords: nat, first: int)
    requires n < |ss| && CountedCoords(ss, n, withCoords, first)
    ensures CountedCoords(ss, n + 1, if ss[n].lat then withCoords + 1 else withCoords,
                          if ss[n].lat && withCoords == 0 then n else first)
  {
    if ss[n].lat && withCoords > 0 { assert first < n < n + 1; }
  }

  lemma CountLegacy(ss: seq<Section>, n: nat, legacy: int)
    requires n < |ss| && CountedLegacy(ss, n, legacy)
    ensures CountedLegacy(ss, n + 1, if ss[n].lat && ss[n].name == "location" then n else legacy)
  {
  }

  // ---- activation ----

  predicate SectionChar(c: char)
    ensures SectionChar(c) <==> 65 <= c as int <= 90 || 97 <= c as int <= 122 || 48 <= c as int <= 57 || c as int == 95
  {
    'A' <= c <= 'Z' || 'a' <= c <= 'z' || '0' <= c <= '9' || c == '_'
  }

  predicate ValidSection(name: string) {
    name != "" && forall c | c in name :: SectionChar(c)
  }

  function Names(ss: seq<Section>): (names: seq<string>)
    ensures |names| == |ss| && forall i | 0 <= i < |ss| :: names[i] == ss[i].name
  {
    seq(|ss|, i requires 0 <= i < |ss| => ss[i].name)
  }

  /** What UCI guarantees of the sections of one configuration. */
  predicate WellNamed(ss: seq<Section>) {
    && (forall i, j | 0 <= i < j < |ss| :: ss[i].name != ss[j].name)
    && (forall s | s in ss :: s.name != "")
  }

  /** The sections with the given ones active and every other one inactive, as the script writes it. */
  function Marked(ss: seq<Section>, on: set<string>): (r: seq<Section>)
    ensures |r| == |ss|
    ensures forall i | 0 <= i < |ss| :: r[i] == ss[i].(active := if ss[i].name in on then "1" else "0")
  {
    seq(|ss|, i requires 0 <= i < |ss| => ss[i].(active := if ss[i].name in on then "1" else "0"))
  }

  /** The sections that print_active finds: those whose option is spelled 1. */
  function Ones(ss: seq<Section>): set<string> {
    set s | s in ss && s.active == "1" :: s.name
  }

  function ActiveNames(ss: seq<Section>): set<string> {
    set s | s in ss && Active(s) :: s.name
  }

  class Uci {
    // what `uci set` has changed, what is committed, and what the service was told to load
    var staged: seq<Section>
    var committed: seq<Section>
    ghost var loaded: seq<seq<Section>>

    ghost predicate Valid()
      reads this
    {
      WellNamed(staged)
    }

    method Commit()
      modifies `committed
      ensures committed == staged
    {
      committed := staged;
    }

    /** The service reads the committed file; it may refuse it. */
    method Reload() returns (ok: bool)
      modifies `loaded
      ensures loaded == old(loaded) + [committed]
    {
      loaded := loaded + [committed];
      ok := *;
    }

    /** config_foreach set_profile_active profile */
    method SetProfilesActive(wanted: string)
      requires Valid()
      modifies `staged
      ensures Valid() && staged == Marked(old(staged), {wanted})
    {
      ghost var before := staged;
      for i := 0 to |staged|
        invariant |staged| == |before|
        invariant forall j | 0 <= j < i :: staged[j] == Marked(before, {wanted})[j]
        invariant forall j | i <= j < |staged| :: staged[j] == before[j]
      {
        staged := staged[i := staged[i].(active := if staged[i].name == wanted then "1" else "0")];
      }
    }

    /** uci set of one section's option. */
    method SetOne(name: string)
      requires Valid()
      modifies `staged
      ensures Valid() && |staged| == |old(staged)|
      ensures forall i | 0 <= i < |staged| ::
        staged[i] == if old(staged)[i].name == name then old(staged)[i].(active := "1") else old(staged)[i]
    {
      ghost var before := staged;
      for i := 0 to |staged|
        invariant |staged| == |before|
        invariant forall j | 0 <= j < i ::
          staged[j] == if before[j].name == name then before[j].(active := "1") else before[j]
        invariant forall j | i <= j < |staged| :: staged[j] == before[j]
      {
        if staged[i].name == name { staged := staged[i := staged[i].(active := "1")]; }
      }
    }

    /** config_foreach print_active profile */
    method PrintActive() returns (old1: seq<string>)
      ensures forall n :: n in old1 <==> n in Ones(staged)
    {
      old1 := [];
      for i := 0 to |staged|
        invariant forall n :: n in old1 <==> exists j :: 0 <= j < i && staged[j].active == "1" && staged[j].name == n
      {
        if staged[i].active == "1" { old1 := old1 + [staged[i].name]; }
      }
    }

    method Found(wanted: string) returns (found: bool)
      ensures found <==> wanted in Names(staged)
    {
      found := false;
      for i := 0 to |staged|
        invariant found <==> wanted in Names(staged)[..i]
      {
        assert Names(staged)[..i + 1] == Names(staged)[..i] + [staged[i].name];
        if staged[i].name == wanted { found := true; }
      }
      assert Names(staged)[..|staged|] == Names(staged);
    }

    /** The rollback: everything off, then every section that was on. */
    method Restore(previous: seq<string>)
      requires Valid()
      modifies `staged
      ensures Valid() && staged == Marked(old(staged), set n | n in previous)
    {
      ghost var before := staged;
      SetProfilesActive("");
      assert staged == Marked(before, {});
      for k := 0 to |previous|
        invariant Valid() && staged == Marked(before, set n | n in previous[..k])
      {
        assert previous[..k + 1] == previous[..k] + [previous[k]];
        SetOne(previous[k]);
      }
      assert previous[..|previous|] == previous;
    }

    /**
     * activate_profile: on success exactly the wanted section is on, committed and loaded; when the service
     * refuses it, exactly the sections that were spelled 1 are on again; otherwise nothing is touched.
     */
    method Activate(wanted: string) returns (status: nat)
      requires Valid() && committed == staged
      modifies this
      ensures Valid() && committed == staged && status <= 2
      ensures status == 2 <==> !ValidSection(wanted) || wanted !in Names(old(staged))
      ensures wanted == "" || (exists c :: c in wanted && !SectionChar(c)) ==> status == 2
      ensures status == 2 ==> staged == old(staged) && loaded == old(loaded)
      ensures status == 0 ==> staged == Marked(old(staged), {wanted}) && loaded == old(loaded) + [staged]
      ensures status == 1 ==> staged == Marked(old(staged), Ones(old(staged)))
      ensures status == 1 ==> loaded == old(loaded) + [Marked(old(staged), {wanted}), staged]
    {
      ghost var before := staged;
      if !ValidSection(wanted) { return 2; }
      var found := Found(wanted);
      if !found { return 2; }
      var previous := PrintActive();
      SetProfilesActive(wanted);
      ghost var tried := staged;
      Commit();
      var ok := Reload();
      if ok { return 0; }
      Restore(previous);
      assert (set n | n in previous) == Ones(before);
      MarkedTwice(before, {wanted}, Ones(before));
      assert staged == Marked(before, Ones(before));
      Commit();
      var again := Reload();
      assert loaded == old(loaded) + [tried] + [staged];
      return 1;
    }
  }

  lemma MarkedTwice(ss: seq<Section>, a: set<string>, b: set<string>)
    ensures Marked(Marked(ss, a), b) == Marked(ss, b)
  {
  }

  // ---- activation meets selection ----

  /** After an activation that succeeded the configuration is refused for no other reason than a bad section. */
  lemma ActivatedIsSelected(ss: seq<Section>, wanted: string)
    requires WellNamed(ss) && wanted in Names(ss)
    ensures !TwoActive(Marked(ss, {wanted}))
    ensures exists i: nat ::
      OnlyActive(Marked(ss, {wanted}), i) && ss[i].name == wanted && InForce(Marked(ss, {wanted}), i)
    ensures forall s | s in Marked(ss, {wanted}) :: Bad(s) <==>
      s.lat != s.lon || (s.lat && !s.valid) || (s.name == wanted && !s.lat)
  {
    var i :| 0 <= i < |ss| && Names(ss)[i] == wanted;
    var m := Marked(ss, {wanted});
    assert SPELLS_TRUE[0] == "1" && SPELLS_FALSE[0] == "0";
    assert OnlyActive(m, i);
  }

  /**
   * The rollback restores the profiles that were active exactly when every one of them was spelled 1: the
   * parser also takes t, T, TRUE, true and True for active, the script does not.
   */
  lemma RollbackIsExact(ss: seq<Section>)
    requires WellNamed(ss)
    ensures ActiveNames(Marked(ss, Ones(ss))) == ActiveNames(ss) <==> forall s | s in ss && Active(s) :: s.active == "1"
    ensures Ones(Marked(ss, Ones(ss))) == Ones(ss)
  {
    hide Marked;
    OnesAgain(ss);
    if ActiveNames(Marked(ss, Ones(ss))) == ActiveNames(ss) {
      forall s | s in ss && Active(s) ensures s.active == "1" {
        assert s.name in ActiveNames(ss) && s.name in Ones(ss);
        var i :| 0 <= i < |ss| && ss[i] == s;
        var j :| 0 <= j < |ss| && ss[j].active == "1" && ss[j].name == s.name;
        assert i == j;
      }
    }
    assert SPELLS_TRUE[0] == "1";
    assert (forall s | s in ss && Active(s) :: s.active == "1") ==> ActiveNames(ss) == Ones(ss);
  }

  lemma OnesAgain(ss: seq<Section>)
    ensures Ones(Marked(ss, Ones(ss))) == Ones(ss) == ActiveNames(Marked(ss, Ones(ss)))
  {
    var m := Marked(ss, Ones(ss));
    MarkedActive(ss, Ones(ss));
    assert forall i | 0 <= i < |ss| :: m[i] in m && ss[i] in ss;
    forall n ensures n in Ones(m) <==> n in Ones(ss) {
      if n in Ones(ss) {
        var i :| 0 <= i < |ss| && ss[i].active == "1" && ss[i].name == n;
        assert m[i].active == "1";
      }
    }
  }

  lemma MarkedActive(ss: seq<Section>, on: set<string>)
    ensures forall s | s in Marked(ss, on) :: Active(s) <==> s.active == "1"
  {
    assert SPELLS_TRUE[0] == "1";
  }

  /** A profile that was active as "true" is not active any more after a failed attempt to activate another. */
  lemma RollbackLosesOtherSpellings()
    ensures var ss := [Section("home", "true", true, true, true), Section("work", "0", true, true, true)];
      WellNamed(ss) && OnlyActive(ss, 0) && InForce(ss, 0)
      && forall i :: !InForce(Marked(ss, Ones(ss)), i)
  {
    var ss := [Section("home", "true", true, true, true), Section("work", "0", true, true, true)];
    assert SPELLS_TRUE[4] == "true" && SPELLS_TRUE[0] == "1";
    var m := Marked(ss, Ones(ss));
    assert Ones(ss) == {};
    assert m[0].active == "0" && m[1].active == "0" && m[0].lat && m[1].lat;
  }
}
