/** Rewriting twice: when the second profile is all that shows, and the one way the second rewrite can fail. */
module WLocAbsorb {
  import opened Bytes
  import opened Varint
  import opened Wire
  import opened WLoc
  import opened WLocGrowth
  import opened WLocMeaning

  /** The two profiles write the same field numbers. */
  ghost predicate SameTargets(p: Profile, q: Profile) {
    p.motionType.Some? == q.motionType.Some? && p.motionConfidence.Some? == q.motionConfidence.Some?
  }

  // ---- locations ----

  lemma SameKeys(p: Profile, q: Profile)
    requires SameTargets(p, q)
    ensures Vals(p).Keys == Vals(q).Keys
  {
  }

  /** After a rewrite nothing is missing for a profile with the same targets. */
  lemma {:induction false} NothingMissing(targets: seq<nat>, fs: seq<Field>, p: Profile, q: Profile)
    requires SameTargets(p, q)
    ensures Missing(targets, LocationFields(fs, p), q) == []
  {
    hide EncVarint, Vals, LocationFields;
    if targets != [] {
      SameKeys(p, q);
      NothingMissing(targets[1..], fs, p, q);
      if targets[0] in Vals(q) {
        WrittenHasAll(fs, p, targets[0]);
      }
    }
  }

  lemma WrittenHasAll(fs: seq<Field>, p: Profile, n: nat)
    requires n in Vals(p)
    ensures HasVarint(LocationFields(fs, p), n)
  {
    hide EncVarint, Vals;
    var gs := LocationFields(fs, p);
    if HasVarint(fs, n) {
      var i :| 0 <= i < |fs| && IsVarint(fs[i], n);
      assert gs[i] == Replace(fs[i], p) && IsVarint(gs[i], n);
    } else {
      TargetsAreAll(p, n);
      MissingAll(TARGETS, fs, p, n);
      var k :| 0 <= k < |Missing(TARGETS, fs, p)| && Missing(TARGETS, fs, p)[k] == ValueField(n, p);
      assert gs[|fs| + k] == ValueField(n, p) && IsVarint(gs[|fs| + k], n);
    }
  }

  lemma {:induction false} KeptMissing(targets: seq<nat>, fs: seq<Field>, p: Profile, q: Profile)
    requires SameTargets(p, q)
    ensures Kept(Missing(targets, fs, p), q) == Missing(targets, fs, q)
  {
    hide EncVarint, Vals, HasVarint;
    if targets != [] {
      SameKeys(p, q);
      KeptMissing(targets[1..], fs, p, q);
      MissingHead(targets, fs, p);
      MissingHead(targets, fs, q);
      var n, rest := targets[0], Missing(targets[1..], fs, p);
      if n in Vals(p) && !HasVarint(fs, n) {
        assert Kept([ValueField(n, p)] + rest, q) == [Replace(ValueField(n, p), q)] + Kept(rest, q);
      }
    }
  }

  lemma LocationAbsorbs(fs: seq<Field>, p: Profile, q: Profile)
    requires SameTargets(p, q)
    ensures LocationFields(LocationFields(fs, p), q) == LocationFields(fs, q)
  {
    hide EncVarint, Vals, HasVarint;
    SameKeys(p, q);
    NothingMissing(TARGETS, fs, p, q);
    KeptMissing(TARGETS, fs, p, q);
    assert Kept(Kept(fs, p) + Missing(TARGETS, fs, p), q) == Kept(Kept(fs, p), q) + Kept(Missing(TARGETS, fs, p), q);
    assert Kept(Kept(fs, p), q) == Kept(fs, q) by {
      forall i | 0 <= i < |fs| ensures Replace(Replace(fs[i], p), q) == Replace(fs[i], q) {
      }
    }
  }

  // ---- walks ----

  /** Walking twice: either the second step meets what the first one would have been asked, or it fails. */
  lemma {:induction false} WalkAbsorbs(fs: seq<Field>, first: Field -> Step, second: Field -> Step)
    requires Walk(fs, first).Some?
    requires forall i | 0 <= i < |fs| ::
      var again := second(Apply(fs[i], first(fs[i])));
      again == second(fs[i]) || again.Fail?
    requires forall i | 0 <= i < |fs| :: first(fs[i]).Change? <==> second(fs[i]).Change?
    ensures var gs := Walk(fs, first).value.fields;
      if forall i | 0 <= i < |fs| :: second(Apply(fs[i], first(fs[i]))) == second(fs[i])
      then Walk(gs, second) == Walk(fs, second)
      else Walk(gs, second) == None
  {
    hide BytesField;
    if fs != [] {
      var s := first(fs[0]);
      var g := Apply(fs[0], s);
      var rest := Walk(fs[1..], first).value.fields;
      assert Walk(fs, first).value.fields == [g] + rest && ([g] + rest)[1..] == rest;
      forall i | 0 <= i < |fs[1..]|
        ensures var again := second(Apply(fs[1..][i], first(fs[1..][i])));
                && (again == second(fs[1..][i]) || again.Fail?)
                && (first(fs[1..][i]).Change? <==> second(fs[1..][i]).Change?)
                && (again == second(fs[i + 1]) <==> again == second(fs[1..][i]))
      {
        assert fs[1..][i] == fs[i + 1];
      }
      WalkAbsorbs(fs[1..], first, second);
      if second(g) == second(fs[0]) {
        ApplyTwice(fs[0], s, second(fs[0]));
        AllFromTail(fs, first, second);
      }
    }
  }

  lemma ApplyTwice(f: Field, s: Step, t: Step)
    requires !s.Fail? && (s.Change? <==> t.Change?)
    ensures Apply(Apply(f, s), t) == Apply(f, t)
  {
    hide EncVarint;
  }

  lemma AllFromTail(fs: seq<Field>, first: Field -> Step, second: Field -> Step)
    requires fs != [] && second(Apply(fs[0], first(fs[0]))) == second(fs[0])
    ensures (forall i | 0 <= i < |fs| :: second(Apply(fs[i], first(fs[i]))) == second(fs[i])) <==>
            (forall i | 0 <= i < |fs[1..]| :: second(Apply(fs[1..][i], first(fs[1..][i]))) == second(fs[1..][i]))
  {
    hide BytesField;
    if i :| 0 <= i < |fs[1..]| && second(Apply(fs[1..][i], first(fs[1..][i]))) != second(fs[1..][i]) {
      assert fs[1..][i] == fs[i + 1];
    } else {
      forall i | 0 <= i < |fs| ensures second(Apply(fs[i], first(fs[i]))) == second(fs[i]) {
        if i > 0 { assert fs[1..][i - 1] == fs[i]; }
      }
    }
  }

  // ---- when the second rewrite can read the first one's locations ----

  /** The written location is within what `parse` accepts. */
  ghost predicate LocationRoom(fs: seq<Field>, p: Profile) {
    |fs| + |Missing(TARGETS, fs, p)| <= MAX_FIELDS
  }

  ghost predicate RecordRoom(fs: seq<Field>, recordType: nat, p: Profile) {
    forall i | 0 <= i < |fs| && HoldsLocation(fs[i], recordType) :: LocationRoom(Fields(fs[i].value).value, p)
  }

  ghost predicate MessageRoom(fs: seq<Field>, p: Profile) {
    forall i | 0 <= i < |fs| && FieldLocations(fs[i]) > 0 :: RecordRoom(Fields(fs[i].value).value, fs[i].num, p)
  }

  // ---- records ----

  lemma RecordStepAgain(f: Field, p: Profile, q: Profile, rt: nat)
    requires SameTargets(p, q) && !RecordStep(f, p, rt, 1).Fail?
    ensures var again := RecordStep(Apply(f, RecordStep(f, p, rt, 1)), q, rt, 1);
      if HoldsLocation(f, rt) && !LocationRoom(Fields(f.value).value, p) then again.Fail?
      else again == RecordStep(f, q, rt, 1)
    ensures RecordStep(f, p, rt, 1).Change? <==> RecordStep(f, q, rt, 1).Change?
    ensures !RecordStep(f, q, rt, 1).Fail?
  {
    hide Fields, One, EncVarint, LocationFields, Concat, HasVarint, Vals;
    RecordStepIs(f, p, rt);
    if HoldsLocation(f, rt) {
      var loc := Fields(f.value).value;
      ConcatOfFields(f.value);
      WrittenLocation(loc, p);
      LocationAbsorbs(loc, p, q);
      WrittenHasAll(loc, p, 1);
      WrittenHasAll(loc, p, 2);
    }
  }

  /** The bytes of a written location parse to the written fields, and there are that many of them. */
  lemma WrittenLocation(loc: seq<Field>, p: Profile)
    requires AllWellFormed(loc) && HasLocation(loc)
    ensures Fields(Concat(LocationFields(loc, p))) == Some(LocationFields(loc, p))
    ensures |LocationFields(loc, p)| == |loc| + |Missing(TARGETS, loc, p)|
  {
    hide Fields, One, EncVarint, Concat, HasVarint, Vals, Missing;
    LocationGrowth(loc, p);
    FieldsOfConcat(LocationFields(loc, p));
  }

  lemma RecordAbsorbs(b: bytes, p: Profile, q: Profile, rt: nat)
    requires Fits(b) && SameTargets(p, q) && RewriteRecord(b, p, rt, 1).Ok?
    ensures Fields(b).Some?
    ensures var again := RewriteRecord(RewriteRecord(b, p, rt, 1).value.out, q, rt, 1);
      if RecordRoom(Fields(b).value, rt, p) then again == RewriteRecord(b, q, rt, 1) else again.Err?
  {
    hide Fields, One, EncVarint, HoldsLocation, LocationRoom, Concat, RecordStep, Walk;
    var fs := Parse(b, 1).value;
    ParseIsFields(b, 1);
    var first := (f: Field) => RecordStep(f, p, rt, 1);
    var second := (f: Field) => RecordStep(f, q, rt, 1);
    WalkPointwise(fs, first);
    forall i | 0 <= i < |fs|
      ensures HoldsLocation(fs[i], rt) ==> Fields(fs[i].value).Some?
      ensures var again := second(Apply(fs[i], first(fs[i])));
              && (if HoldsLocation(fs[i], rt) && !LocationRoom(Fields(fs[i].value).value, p) then again.Fail?
                  else again == second(fs[i]))
              && (first(fs[i]).Change? <==> second(fs[i]).Change?) && !second(fs[i]).Fail?
    {
      RecordStepAgain(fs[i], p, q, rt);
      if HoldsLocation(fs[i], rt) { RecordFieldHolds(fs[i], rt); }
    }
    WalkAbsorbs(fs, first, second);
    var gs := Walk(fs, first).value.fields;
    RecordGrowth(b, p, rt, 1);
    FieldsOfConcat(gs);
  }

  lemma RecordFieldHolds(f: Field, rt: nat)
    requires HoldsLocation(f, rt)
    ensures Fields(f.value).Some?
  {
    hide Fields, HasVarint;
  }

  // ---- messages ----

  lemma MessageStepAgain(f: Field, p: Profile, q: Profile)
    requires SameTargets(p, q) && Fits(f.value) && !MessageStep(f, p, 0).Fail?
    ensures FieldLocations(f) > 0 ==> Fields(f.value).Some?
    ensures var again := MessageStep(Apply(f, MessageStep(f, p, 0)), q, 0);
      if FieldLocations(f) > 0 && !RecordRoom(Fields(f.value).value, f.num, p) then again.Fail?
      else again == MessageStep(f, q, 0)
    ensures MessageStep(f, p, 0).Change? <==> MessageStep(f, q, 0).Change?
    ensures !MessageStep(f, q, 0).Fail?
  {
    hide Fields, RewriteRecord, RecordRewritten, RecordLocations, RecordRoom, EncVarint;
    if IsRecord(f) {
      RecordFails(f.value, p, f.num);
      RecordFails(f.value, q, f.num);
      RecordMeaning(f.value, p, f.num);
      RecordMeaning(f.value, q, f.num);
      RecordAbsorbs(f.value, p, q, f.num);
    }
  }

  /**
   * Rewriting with p and then with q gives, byte for byte, what q alone gives, provided every location had
   * room for the fields p appended to it; otherwise the second rewrite refuses its input.
   */
  lemma Absorption(b: bytes, p: Profile, q: Profile)
    requires Fits(b) && SameTargets(p, q) && RewriteProto(b, p, 0).Ok?
    ensures var again := RewriteProto(RewriteProto(b, p, 0).value.out, q, 0);
      && (again.Ok? <==> MessageRoom(Fields(b).value, p))
      && (again.Ok? ==> again == RewriteProto(b, q, 0))
  {
    hide Fields, One, EncVarint, FieldLocations, RecordRoom, Concat, MessageStep, Walk;
    var fs := Parse(b, 0).value;
    ParseIsFields(b, 0);
    var first := (f: Field) => MessageStep(f, p, 0);
    var second := (f: Field) => MessageStep(f, q, 0);
    WalkPointwise(fs, first);
    WalkPointwise(fs, second);
    forall i | 0 <= i < |fs|
      ensures FieldLocations(fs[i]) > 0 ==> Fields(fs[i].value).Some?
      ensures var again := second(Apply(fs[i], first(fs[i])));
              && (if FieldLocations(fs[i]) > 0 && !RecordRoom(Fields(fs[i].value).value, fs[i].num, p) then again.Fail?
                  else again == second(fs[i]))
              && (first(fs[i]).Change? <==> second(fs[i]).Change?) && !second(fs[i]).Fail?
    {
      InsideIsShorter(fs, i);
      MessageStepAgain(fs[i], p, q);
    }
    WalkAbsorbs(fs, first, second);
    MessageGrowth(b, p, 0);
    FieldsOfConcat(Walk(fs, first).value.fields);
  }

  /** With room in every location, rewriting is idempotent. */
  lemma Idempotence(b: bytes, p: Profile)
    requires Fits(b) && RewriteProto(b, p, 0).Ok? && MessageRoom(Fields(b).value, p)
    ensures RewriteProto(RewriteProto(b, p, 0).value.out, p, 0) == RewriteProto(b, p, 0)
  {
    hide RewriteProto, MessageRoom, Fields;
    Absorption(b, p, p);
  }

  // ---- the failing family is not empty ----

  /** Latitude and longitude, then 9998 fields that no profile speaks of. */
  function CrowdedFields(): seq<Field> {
    [VarField(1, 0), VarField(2, 0)] + seq(MAX_FIELDS - 2, _ => VarField(7, 0))
  }

  /** One record of type 2 holding one location with the fields above. */
  function Crowded(): bytes {
    BytesField(2, BytesField(2, Concat(CrowdedFields())).raw).raw
  }

  lemma {:induction false} SmallFieldsSize(fs: seq<Field>)
    requires forall i | 0 <= i < |fs| :: |fs[i].raw| <= 2
    ensures |Concat(fs)| <= 2 * |fs|
  {
    if fs != [] { SmallFieldsSize(fs[1..]); }
  }

  lemma CrowdedLocation()
    ensures var fs := CrowdedFields();
      AllWellFormed(fs) && |fs| == MAX_FIELDS && HasLocation(fs) && |Concat(fs)| <= 2 * MAX_FIELDS
    ensures forall n | n in {3, 5, 6} :: !HasVarint(CrowdedFields(), n)
  {
    hide One, Concat;
    var fs := CrowdedFields();
    VarFieldWellFormed(1, 0);
    VarFieldWellFormed(2, 0);
    VarFieldWellFormed(7, 0);
    assert IsVarint(fs[0], 1) && IsVarint(fs[1], 2);
    assert EncVarint(0) == [0] && Key(1, 0) == [8] && Key(2, 0) == [16] && Key(7, 0) == [56];
    SmallFieldsSize(fs);
  }

  lemma OneField(f: Field)
    requires WellFormed(f)
    ensures Fields(f.raw) == Some([f])
  {
    hide One, Fields;
    FieldsOfConcat([f]);
    assert Concat([f]) == f.raw;
  }

  lemma CrowdedRecord(record: Field, fs: seq<Field>, p: Profile)
    requires record.wire == 2 && record.num == 2 && Fields(record.value) == Some(fs)
    requires HasLocation(fs) && |fs| == MAX_FIELDS && !HasVarint(fs, 3)
    ensures HoldsLocation(record, 2) && RecordLocations([record], 2) == 1
    ensures Parse(record.value, 2).Ok? && !RecordRoom([record], 2, p)
  {
    hide Fields, HasVarint, Vals;
    MissingAll(TARGETS, fs, p, 3);
    assert [record][0] == record && [record][1..] == [];
    assert RecordLocations([], 2) == 0;
    assert !LocationRoom(fs, p);
  }

  lemma CrowdedMessage(message: Field, record: Field, p: Profile)
    requires message.wire == 2 && message.num == 2 && Fields(message.value) == Some([record])
    requires record.wire == 2 && record.num == 2 && Parse(record.value, 2).Ok?
    requires RecordLocations([record], 2) == 1 && !RecordRoom([record], 2, p)
    ensures ReadableRecord(message.value, 2) && FieldLocations(message) == 1 && !MessageRoom([message], p)
  {
    hide Fields, RecordLocations, RecordRoom, HoldsLocation;
    assert Parse(message.value, 1) == Ok([record]) && [record][0] == record;
    assert [message][0] == message;
  }

  /** A message that is rewritten once and then refused, whatever the profile. */
  lemma SecondRewriteCanFail(p: Profile)
    ensures Fits(Crowded())
    ensures RewriteProto(Crowded(), p, 0).Ok?
    ensures RewriteProto(RewriteProto(Crowded(), p, 0).value.out, p, 0).Err?
  {
    hide One, Fields, EncVarint, Concat, HasVarint, Missing, Vals, CrowdedFields, RewriteProto, ReadableRecord,
         RecordLocations, RecordRoom, MessageRoom;
    var fs := CrowdedFields();
    var loc := Concat(fs);
    CrowdedLocation();
    FieldsOfConcat(fs);
    BytesFieldSize(2, loc);
    var record := BytesField(2, loc);
    OneField(record);
    BytesFieldSize(2, record.raw);
    var message := BytesField(2, record.raw);
    OneField(message);
    CrowdedRecord(record, fs, p);
    CrowdedMessage(message, record, p);
    assert Crowded() == message.raw;
    assert Parse(Crowded(), 0) == Ok([message]);
    assert Readable(Crowded());
    RewriteFailsExactlyWhenUnreadable(Crowded(), p);
    Absorption(Crowded(), p, p);
  }
}
