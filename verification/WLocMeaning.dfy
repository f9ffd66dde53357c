/**
 * What rewriting means on the tree of fields, stated without reference to how the bytes are produced:
 * what a reader that takes the last value of a field sees afterwards, and what it does not see change.
 */
module WLocMeaning {
  import opened Bytes
  import opened Varint
  import opened Wire
  import opened WLoc
  import opened WLocGrowth

  // ---- the specification ----

  /** The value of field `num` for a reader that lets the last occurrence win. */
  function LastVarint(fs: seq<Field>, num: nat): Option<int> {
    if fs == [] then None
    else
      var f := fs[|fs| - 1];
      if IsVarint(f, num) then
        match ReadVarint(f.value)
        case Bad => None
        case Got(v, _) => if v < TWO64 then Some(Signed(v)) else None
      else LastVarint(fs[..|fs| - 1], num)
  }

  /** The numbers that a profile speaks of: five always, those of the motion when it has one. */
  predicate Speaks(p: Profile, n: nat) {
    || n == 1 || n == 2 || n == 3 || n == 5 || n == 6
    || (n == 11 && p.motionType.Some?) || (n == 12 && p.motionConfidence.Some?)
  }

  /** What each of them reads as. */
  ghost predicate ReadsAs(gs: seq<Field>, p: Profile) {
    && LastVarint(gs, 1) == Some(p.latitude)
    && LastVarint(gs, 2) == Some(p.longitude)
    && LastVarint(gs, 3) == Some(p.horizontalAccuracy)
    && LastVarint(gs, 5) == Some(p.altitude)
    && LastVarint(gs, 6) == Some(p.verticalAccuracy)
    && (p.motionType.Some? ==> LastVarint(gs, 11) == Some(p.motionType.value))
    && (p.motionConfidence.Some? ==> LastVarint(gs, 12) == Some(p.motionConfidence.value))
  }

  /** The fields a profile does not speak of, in order. */
  function Others(fs: seq<Field>, p: Profile): seq<Field> {
    if fs == [] then []
    else (if fs[0].wire == 0 && Speaks(p, fs[0].num) then [] else [fs[0]]) + Others(fs[1..], p)
  }

  predicate SameHead(f: Field, g: Field) {
    f.num == g.num && f.wire == g.wire
  }

  ghost predicate LocationRewritten(before: bytes, after: bytes, p: Profile) {
    match (Fields(before), Fields(after))
    case (Some(fs), Some(gs)) =>
      // every field of the profile reads as the profile says, every other number as before
      && ReadsAs(gs, p)
      && (forall n | !Speaks(p, n) :: LastVarint(gs, n) == LastVarint(fs, n))
      // every other field keeps its exact bytes, and their order
      && Others(gs, p) == Others(fs, p)
      // no field moves or changes its head
      && |fs| <= |gs|
      && (forall i | 0 <= i < |fs| :: SameHead(fs[i], gs[i]))
      // only what was missing is appended, once, in ascending order
      && (forall i | |fs| <= i < |gs| :: gs[i].wire == 0 && Speaks(p, gs[i].num) && !HasVarint(fs, gs[i].num))
      && (forall i, j | |fs| <= i < j < |gs| :: gs[i].num < gs[j].num)
    case _ => false
  }

  /**
   * A field of a record that a location is read from: number 2 in a record of type 2, number 5 in any other, with a
   * latitude and a longitude.
   */
  predicate HoldsLocation(f: Field, recordType: nat) {
    && f.wire == 2 && f.num == (if recordType == 2 then 2 else 5)
    && Fields(f.value).Some? && HasVarint(Fields(f.value).value, 1) && HasVarint(Fields(f.value).value, 2)
  }

  function RecordLocations(fs: seq<Field>, recordType: nat): nat {
    if fs == [] then 0
    else (if HoldsLocation(fs[0], recordType) then 1 else 0) + RecordLocations(fs[1..], recordType)
  }

  ghost predicate RecordRewritten(before: bytes, after: bytes, recordType: nat, p: Profile) {
    match (Fields(before), Fields(after))
    case (Some(fs), Some(gs)) =>
      && |fs| == |gs|
      && forall i | 0 <= i < |fs| ::
        if HoldsLocation(fs[i], recordType)
        then SameHead(fs[i], gs[i]) && LocationRewritten(fs[i].value, gs[i].value, p)
        else gs[i] == fs[i]
    case _ => false
  }

  /** The types of the records that hold locations. */
  predicate IsRecordType(n: nat) {
    n == 2 || n == 22 || n == 24
  }

  /** The number of locations below a field of a message. */
  function FieldLocations(f: Field): nat {
    if f.wire == 2 && IsRecordType(f.num) && Fields(f.value).Some?
    then RecordLocations(Fields(f.value).value, f.num) else 0
  }

  function MessageLocations(fs: seq<Field>): nat {
    if fs == [] then 0 else FieldLocations(fs[0]) + MessageLocations(fs[1..])
  }

  ghost predicate MessageRewritten(before: bytes, after: bytes, p: Profile) {
    match (Fields(before), Fields(after))
    case (Some(fs), Some(gs)) =>
      && |fs| == |gs|
      && forall i | 0 <= i < |fs| ::
        if FieldLocations(fs[i]) > 0
        then SameHead(fs[i], gs[i]) && RecordRewritten(fs[i].value, gs[i].value, fs[i].num, p)
        else gs[i] == fs[i]
    case _ => false
  }

  /** The record and every field at its location number parse. */
  ghost predicate ReadableRecord(b: bytes, recordType: nat) {
    && Parse(b, 1).Ok?
    && var fs := Parse(b, 1).value;
       forall i | 0 <= i < |fs| && fs[i].wire == 2 && fs[i].num == (if recordType == 2 then 2 else 5) ::
         Parse(fs[i].value, 2).Ok?
  }

  ghost predicate Readable(b: bytes) {
    && Parse(b, 0).Ok?
    && var fs := Parse(b, 0).value;
       forall i | 0 <= i < |fs| && fs[i].wire == 2 && IsRecordType(fs[i].num) :: ReadableRecord(fs[i].value, fs[i].num)
  }

  // ---- locations ----

  lemma ValueFieldReads(num: nat, p: Profile)
    requires num in Vals(p)
    ensures LastVarint([ValueField(num, p)], num) == Some(Vals(p)[num])
    ensures ReadVarint(ValueField(num, p).value) == Got(Unsigned(Vals(p)[num]), |ValueField(num, p).value|)
  {
    hide ReadFrom, EncVarint, Vals;
    var v := Unsigned(Vals(p)[num]);
    VarintRoundTrip(v, []);
    assert EncVarint(v) + [] == EncVarint(v);
  }

  lemma {:induction false} AllSayTheSame(gs: seq<Field>, num: nat, p: Profile)
    requires num in Vals(p) && HasVarint(gs, num)
    requires forall i | 0 <= i < |gs| && IsVarint(gs[i], num) :: gs[i] == ValueField(num, p)
    ensures LastVarint(gs, num) == Some(Vals(p)[num])
  {
    hide ReadFrom, EncVarint, Vals;
    var last := gs[|gs| - 1];
    if IsVarint(last, num) {
      ValueFieldReads(num, p);
    } else {
      var i :| 0 <= i < |gs| && IsVarint(gs[i], num);
      assert gs[..|gs| - 1][i] == gs[i];
      AllSayTheSame(gs[..|gs| - 1], num, p);
    }
  }

  lemma {:induction false} OthersAppend(a: seq<Field>, b: seq<Field>, p: Profile)
    ensures Others(a + b, p) == Others(a, p) + Others(b, p)
  {
    hide Vals;
    if a == [] {
      assert a + b == b;
    } else {
      assert (a + b)[1..] == a[1..] + b;
      OthersAppend(a[1..], b, p);
    }
  }

  lemma {:induction false} OthersKept(fs: seq<Field>, p: Profile)
    ensures Others(Kept(fs, p), p) == Others(fs, p)
  {
    hide Vals, EncVarint;
    if fs != [] {
      OthersKept(fs[1..], p);
      assert Kept(fs, p)[1..] == Kept(fs[1..], p);
    }
  }

  ghost predicate Added(f: Field, fs: seq<Field>, p: Profile) {
    f.num in Vals(p) && f == ValueField(f.num, p) && !HasVarint(fs, f.num)
  }

  lemma MissingHead(targets: seq<nat>, fs: seq<Field>, p: Profile)
    requires targets != []
    ensures var n, m, rest := targets[0], Missing(targets, fs, p), Missing(targets[1..], fs, p);
      if n in Vals(p) && !HasVarint(fs, n) then m == [ValueField(n, p)] + rest && m[1..] == rest else m == rest
  {
    hide Vals, HasVarint, EncVarint;
  }

  /** Only missing targets are appended. */
  lemma {:induction false} MissingOnly(targets: seq<nat>, fs: seq<Field>, p: Profile)
    ensures var m := Missing(targets, fs, p);
      forall i | 0 <= i < |m| :: m[i].num in targets && Added(m[i], fs, p)
  {
    hide Vals, HasVarint, EncVarint;
    if targets != [] {
      MissingOnly(targets[1..], fs, p);
      MissingHead(targets, fs, p);
      hide Missing;
      var m, rest := Missing(targets, fs, p), Missing(targets[1..], fs, p);
      forall i | 0 <= i < |m| ensures m[i].num in targets && Added(m[i], fs, p) {
        if m != rest && i > 0 {
          assert m[i] == rest[i - 1];
        }
      }
    }
  }

  ghost predicate Ascends(fs: seq<Field>) {
    forall i, j | 0 <= i < j < |fs| :: fs[i].num < fs[j].num
  }

  lemma AscendsCons(f: Field, rest: seq<Field>)
    requires Ascends(rest) && forall j | 0 <= j < |rest| :: f.num < rest[j].num
    ensures Ascends([f] + rest)
  {
  }

  lemma {:induction false} MissingAscends(targets: seq<nat>, fs: seq<Field>, p: Profile)
    requires forall i, j | 0 <= i < j < |targets| :: targets[i] < targets[j]
    ensures Ascends(Missing(targets, fs, p))
  {
    hide Vals, HasVarint, EncVarint;
    if targets != [] {
      MissingAscends(targets[1..], fs, p);
      MissingHead(targets, fs, p);
      MissingOnly(targets[1..], fs, p);
      hide Missing, Added, Ascends;
      var n, rest := targets[0], Missing(targets[1..], fs, p);
      forall j | 0 <= j < |rest| ensures n < rest[j].num {
        assert rest[j].num in targets[1..];
      }
      if n in Vals(p) && !HasVarint(fs, n) { AscendsCons(ValueField(n, p), rest); }
    }
  }

  /** The map of the code is what the profile says. */
  lemma ValsAre(p: Profile)
    ensures forall n: nat :: n in Vals(p) <==> Speaks(p, n)
    ensures Vals(p)[1] == p.latitude && Vals(p)[2] == p.longitude && Vals(p)[3] == p.horizontalAccuracy
    ensures Vals(p)[5] == p.altitude && Vals(p)[6] == p.verticalAccuracy
    ensures p.motionType.Some? ==> Vals(p)[11] == p.motionType.value
    ensures p.motionConfidence.Some? ==> Vals(p)[12] == p.motionConfidence.value
  {
  }

  /** Every missing target is appended. */
  lemma {:induction false} MissingAll(targets: seq<nat>, fs: seq<Field>, p: Profile, n: nat)
    requires n in targets && n in Vals(p) && !HasVarint(fs, n)
    ensures ValueField(n, p) in Missing(targets, fs, p)
  {
    hide Vals, HasVarint, EncVarint;
    MissingHead(targets, fs, p);
    if targets[0] != n {
      MissingAll(targets[1..], fs, p, n);
    }
  }

  lemma {:induction false} OthersOfReplaced(m: seq<Field>, p: Profile)
    requires forall i | 0 <= i < |m| :: Replaces(m[i], p)
    ensures Others(m, p) == []
  {
    hide Vals;
    if m != [] { OthersOfReplaced(m[1..], p); }
  }

  lemma TargetsAreAll(p: Profile, n: nat)
    requires n in Vals(p)
    ensures n in TARGETS
  {
    assert TARGETS[0] == 1 && TARGETS[1] == 2 && TARGETS[2] == 3 && TARGETS[3] == 5;
    assert TARGETS[4] == 6 && TARGETS[5] == 11 && TARGETS[6] == 12;
  }

  lemma SaysValue(fs: seq<Field>, p: Profile, i: nat)
    requires i < |LocationFields(fs, p)|
    ensures var g := LocationFields(fs, p)[i];
      g.wire == 0 && g.num in Vals(p) ==> g == ValueField(g.num, p)
  {
    hide EncVarint, Vals, HasVarint, Missing;
    MissingOnly(TARGETS, fs, p);
    if i >= |fs| {
      assert LocationFields(fs, p)[i] == Missing(TARGETS, fs, p)[i - |fs|];
    }
  }

  lemma LocationReads(fs: seq<Field>, p: Profile, n: nat)
    requires n in Vals(p)
    ensures LastVarint(LocationFields(fs, p), n) == Some(Vals(p)[n])
  {
    hide EncVarint, LastVarint, Missing, Vals;
    var m := Missing(TARGETS, fs, p);
    var gs := LocationFields(fs, p);
    if HasVarint(fs, n) {
      var i :| 0 <= i < |fs| && IsVarint(fs[i], n);
      assert IsVarint(gs[i], n);
    } else {
      TargetsAreAll(p, n);
      MissingAll(TARGETS, fs, p, n);
      var k :| 0 <= k < |m| && m[k] == ValueField(n, p);
      assert gs[|fs| + k] == m[k] && IsVarint(gs[|fs| + k], n);
    }
    forall i | 0 <= i < |gs| && IsVarint(gs[i], n) ensures gs[i] == ValueField(n, p) {
      SaysValue(fs, p, i);
    }
    AllSayTheSame(gs, n, p);
  }

  lemma LocationReadsAs(fs: seq<Field>, p: Profile)
    ensures ReadsAs(LocationFields(fs, p), p)
  {
    hide EncVarint, LastVarint, LocationFields, Vals;
    ValsAre(p);
    forall n: nat | n in Vals(p) ensures LastVarint(LocationFields(fs, p), n) == Some(Vals(p)[n]) {
      LocationReads(fs, p, n);
    }
  }

  lemma {:induction false} LastSkips(fs: seq<Field>, more: seq<Field>, n: nat)
    requires forall i | 0 <= i < |more| :: !IsVarint(more[i], n)
    ensures LastVarint(fs + more, n) == LastVarint(fs, n)
  {
    if more == [] {
      assert fs + more == fs;
    } else {
      var k := |more| - 1;
      assert (fs + more)[..|fs| + k] == fs + more[..k];
      LastSkips(fs, more[..k], n);
    }
  }

  lemma {:induction false} LastKept(fs: seq<Field>, p: Profile, n: nat)
    requires n !in Vals(p)
    ensures LastVarint(Kept(fs, p), n) == LastVarint(fs, n)
  {
    hide Vals, EncVarint, ReadFrom;
    if fs != [] {
      var k := |fs| - 1;
      LastKept(fs[..k], p, n);
      assert Kept(fs, p)[..k] == Kept(fs[..k], p);
    }
  }

  /** A number that the profile does not speak of reads as it did. */
  lemma LocationKeepsRest(fs: seq<Field>, p: Profile, n: nat)
    requires !Speaks(p, n)
    ensures LastVarint(LocationFields(fs, p), n) == LastVarint(fs, n)
  {
    hide EncVarint, Vals, HasVarint, LastVarint;
    ValsAre(p);
    MissingOnly(TARGETS, fs, p);
    forall i | 0 <= i < |Missing(TARGETS, fs, p)| ensures !IsVarint(Missing(TARGETS, fs, p)[i], n) {
      assert Added(Missing(TARGETS, fs, p)[i], fs, p);
    }
    LastSkips(Kept(fs, p), Missing(TARGETS, fs, p), n);
    LastKept(fs, p, n);
  }

  lemma LocationMeaning(fs: seq<Field>, p: Profile)
    requires AllWellFormed(fs) && HasLocation(fs)
    ensures LocationRewritten(Concat(fs), Concat(LocationFields(fs, p)), p)
  {
    hide EncVarint, LastVarint, LocationFields, One, Fields, Vals, HasVarint, ReadsAs, Speaks;
    var gs := LocationFields(fs, p);
    LocationGrowth(fs, p);
    FieldsOfConcat(fs);
    FieldsOfConcat(gs);
    LocationReadsAs(fs, p);
    forall n | !Speaks(p, n) ensures LastVarint(gs, n) == LastVarint(fs, n) {
      LocationKeepsRest(fs, p, n);
    }
    OthersOfLocation(fs, p);
    LocationShape(fs, p);
  }

  lemma OthersOfLocation(fs: seq<Field>, p: Profile)
    ensures Others(LocationFields(fs, p), p) == Others(fs, p)
  {
    hide EncVarint, Vals, HasVarint, Others;
    MissingOnly(TARGETS, fs, p);
    forall i | 0 <= i < |Missing(TARGETS, fs, p)| ensures Replaces(Missing(TARGETS, fs, p)[i], p) {
      assert Added(Missing(TARGETS, fs, p)[i], fs, p);
    }
    OthersOfReplaced(Missing(TARGETS, fs, p), p);
    OthersAppend(Kept(fs, p), Missing(TARGETS, fs, p), p);
    OthersKept(fs, p);
  }

  lemma LocationShape(fs: seq<Field>, p: Profile)
    ensures var gs := LocationFields(fs, p);
      && |fs| <= |gs|
      && (forall i | 0 <= i < |fs| :: SameHead(fs[i], gs[i]))
      && (forall i | |fs| <= i < |gs| :: gs[i].wire == 0 && Speaks(p, gs[i].num) && !HasVarint(fs, gs[i].num))
      && (forall i, j | |fs| <= i < j < |gs| :: gs[i].num < gs[j].num)
  {
    hide EncVarint, Vals, HasVarint, Speaks;
    ValsAre(p);
    var gs := LocationFields(fs, p);
    MissingOnly(TARGETS, fs, p);
    MissingAscends(TARGETS, fs, p);
    forall i | 0 <= i < |fs| ensures SameHead(fs[i], gs[i]) {
      assert gs[i] == Replace(fs[i], p);
    }
    forall i | |fs| <= i < |gs|
      ensures gs[i] == Missing(TARGETS, fs, p)[i - |fs|]
      ensures gs[i].wire == 0 && Speaks(p, gs[i].num) && !HasVarint(fs, gs[i].num)
    {
      assert Added(Missing(TARGETS, fs, p)[i - |fs|], fs, p);
    }
    forall i, j | |fs| <= i < j < |gs| ensures gs[i].num < gs[j].num {
      assert Missing(TARGETS, fs, p)[i - |fs|].num < Missing(TARGETS, fs, p)[j - |fs|].num;
    }
  }

  // ---- walks ----

  /** A walk succeeds when no step fails; its fields are the stepped fields, one for one. */
  lemma {:induction false} WalkPointwise(fs: seq<Field>, step: Field -> Step)
    ensures Walk(fs, step).Some? <==> forall i | 0 <= i < |fs| :: !step(fs[i]).Fail?
    ensures Walk(fs, step).Some? ==>
      var w := Walk(fs, step).value;
      |w.fields| == |fs| && forall i | 0 <= i < |fs| :: w.fields[i] == Apply(fs[i], step(fs[i]))
  {
    hide BytesField;
    if fs != [] {
      WalkPointwise(fs[1..], step);
      var rest := Walk(fs[1..], step);
      if !step(fs[0]).Fail? && rest.Some? {
        assert Walk(fs, step).value.fields == [Apply(fs[0], step(fs[0]))] + rest.value.fields;
        forall i | 0 <= i < |fs| ensures !step(fs[i]).Fail? {
          if i > 0 { assert fs[i] == fs[1..][i - 1]; }
        }
      } else if !step(fs[0]).Fail? {
        var i :| 0 <= i < |fs[1..]| && step(fs[1..][i]).Fail?;
        assert fs[1..][i] == fs[i + 1];
      }
    }
  }

  /** A walk that changed nothing printed what it read. */
  lemma {:induction false} WalkCountZero(fs: seq<Field>, step: Field -> Step)
    requires Walk(fs, step).Some? && Walk(fs, step).value.count == 0
    requires forall f :: step(f).Change? ==> step(f).locations > 0
    ensures Walk(fs, step).value.fields == fs
  {
    if fs != [] {
      WalkCountZero(fs[1..], step);
    }
  }

  lemma {:induction false} WalkCountsRecord(fs: seq<Field>, p: Profile, rt: nat)
    requires Walk(fs, f => RecordStep(f, p, rt, 1)).Some?
    ensures Walk(fs, f => RecordStep(f, p, rt, 1)).value.count == RecordLocations(fs, rt)
  {
    hide HasVarint, Fields, LocationFields, BytesField;
    if fs != [] {
      WalkCountsRecord(fs[1..], p, rt);
      RecordStepIs(fs[0], p, rt);
    }
  }

  lemma RecordStepIs(f: Field, p: Profile, rt: nat)
    requires !RecordStep(f, p, rt, 1).Fail?
    ensures RecordStep(f, p, rt, 1) ==
      if HoldsLocation(f, rt) then Change(Concat(LocationFields(Fields(f.value).value, p)), 1) else Keep
  {
    hide Fields, HasVarint, LocationFields;
  }

  // ---- records ----

  lemma RecordFails(b: bytes, p: Profile, rt: nat)
    ensures RewriteRecord(b, p, rt, 1).Ok? <==> ReadableRecord(b, rt)
  {
    hide Fields, HasVarint, LocationFields, Walk, Parse, Concat;
    if Parse(b, 1).Ok? {
      WalkPointwise(Parse(b, 1).value, f => RecordStep(f, p, rt, 1));
    }
  }

  lemma RecordMeaning(b: bytes, p: Profile, rt: nat)
    requires Fits(b) && RewriteRecord(b, p, rt, 1).Ok?
    ensures var Rewritten(out, n) := RewriteRecord(b, p, rt, 1).value;
      RecordRewritten(b, out, rt, p) && n == RecordLocations(Fields(b).value, rt)
  {
    hide Fields, One, EncVarint, HoldsLocation, LocationFields, Concat, RecordStep, LocationRewritten, Walk;
    var fs := Parse(b, 1).value;
    ParseIsFields(b, 1);
    var step := (f: Field) => RecordStep(f, p, rt, 1);
    WalkPointwise(fs, step);
    WalkCountsRecord(fs, p, rt);
    var gs := Walk(fs, step).value.fields;
    RecordGrowth(b, p, rt, 1);
    FieldsOfConcat(gs);
    forall i | 0 <= i < |fs|
      ensures if HoldsLocation(fs[i], rt)
              then SameHead(fs[i], gs[i]) && LocationRewritten(fs[i].value, gs[i].value, p)
              else gs[i] == fs[i]
    {
      assert !step(fs[i]).Fail? && gs[i] == Apply(fs[i], step(fs[i]));
      RecordFieldMeaning(fs[i], p, rt);
    }
  }

  lemma RecordFieldMeaning(f: Field, p: Profile, rt: nat)
    requires !RecordStep(f, p, rt, 1).Fail?
    ensures var g := Apply(f, RecordStep(f, p, rt, 1));
      if HoldsLocation(f, rt) then SameHead(f, g) && LocationRewritten(f.value, g.value, p) else g == f
  {
    hide Fields, One, EncVarint, LocationFields, Concat, LocationRewritten, HasVarint, Parse;
    RecordStepIs(f, p, rt);
    if HoldsLocation(f, rt) {
      ConcatOfFields(f.value);
      LocationMeaning(Fields(f.value).value, p);
    }
  }

  // ---- messages ----

  /** A step of a message, in terms of the record below it. */
  lemma MessageStepIs(f: Field, p: Profile)
    requires Fits(f.value) && !MessageStep(f, p, 0).Fail?
    ensures var s := MessageStep(f, p, 0);
      && Locations(s) == FieldLocations(f)
      && (s.Change? <==> FieldLocations(f) > 0)
      && (s.Change? ==> RecordRewritten(f.value, s.payload, f.num, p))
  {
    hide RewriteRecord, RecordRewritten, Fields, RecordLocations;
    if IsRecord(f) {
      RecordMeaning(f.value, p, f.num);
      RecordParses(f.value, p, f.num);
    }
  }

  lemma RecordParses(b: bytes, p: Profile, rt: nat)
    requires RewriteRecord(b, p, rt, 1).Ok?
    ensures Fields(b).Some?
  {
    hide Fields;
  }

  lemma {:induction false} WalkCountsMessage(fs: seq<Field>, p: Profile)
    requires Walk(fs, f => MessageStep(f, p, 0)).Some?
    requires forall i | 0 <= i < |fs| :: Fits(fs[i].value)
    ensures Walk(fs, f => MessageStep(f, p, 0)).value.count == MessageLocations(fs)
  {
    hide MessageStep, FieldLocations, BytesField;
    if fs != [] {
      WalkCountsMessage(fs[1..], p);
      MessageStepIs(fs[0], p);
    }
  }

  /** Rewriting succeeds exactly on messages that are readable down to their locations. */
  lemma RewriteFailsExactlyWhenUnreadable(b: bytes, p: Profile)
    ensures RewriteProto(b, p, 0).Ok? <==> Readable(b)
  {
    hide RewriteRecord, ReadableRecord, Walk, Parse, Concat;
    if Parse(b, 0).Ok? {
      var fs := Parse(b, 0).value;
      WalkPointwise(fs, f => MessageStep(f, p, 0));
      forall i | 0 <= i < |fs| && IsRecord(fs[i])
        ensures RewriteRecord(fs[i].value, p, fs[i].num, 1).Ok? <==> ReadableRecord(fs[i].value, fs[i].num)
      {
        RecordFails(fs[i].value, p, fs[i].num);
      }
    }
  }

  /**
   * The bytes that are written mean the rewritten tree: field for field, with every untouched field kept
   * exactly, every location reading as the profile says, and the reported count the number of locations.
   */
  lemma RewriteMeaning(b: bytes, p: Profile)
    requires Fits(b) && RewriteProto(b, p, 0).Ok?
    ensures var Rewritten(out, n) := RewriteProto(b, p, 0).value;
      && MessageRewritten(b, out, p)
      && n == MessageLocations(Fields(b).value)
      && (n == 0 ==> out == b)
  {
    hide Fields, One, EncVarint, Concat, MessageStep, RecordRewritten, Walk, FieldLocations;
    var fs := Parse(b, 0).value;
    ParseIsFields(b, 0);
    var step := (f: Field) => MessageStep(f, p, 0);
    WalkPointwise(fs, step);
    forall i | 0 <= i < |fs| ensures Fits(fs[i].value) {
      InsideIsShorter(fs, i);
    }
    WalkCountsMessage(fs, p);
    var w := Walk(fs, step).value;
    MessageGrowth(b, p, 0);
    FieldsOfConcat(w.fields);
    forall i | 0 <= i < |fs|
      ensures if FieldLocations(fs[i]) > 0
              then SameHead(fs[i], w.fields[i]) && RecordRewritten(fs[i].value, w.fields[i].value, fs[i].num, p)
              else w.fields[i] == fs[i]
    {
      assert !step(fs[i]).Fail? && w.fields[i] == Apply(fs[i], step(fs[i]));
      MessageStepIs(fs[i], p);
      MessageFieldHead(fs[i], p);
    }
    if w.count == 0 {
      NothingChanged(fs, p);
    }
  }

  lemma MessageFieldHead(f: Field, p: Profile)
    ensures SameHead(f, Apply(f, MessageStep(f, p, 0)))
  {
    hide RewriteRecord, EncVarint;
  }

  lemma NothingChanged(fs: seq<Field>, p: Profile)
    requires Walk(fs, f => MessageStep(f, p, 0)).Some? && Walk(fs, f => MessageStep(f, p, 0)).value.count == 0
    ensures Walk(fs, f => MessageStep(f, p, 0)).value.fields == fs
  {
    hide RewriteRecord;
    WalkCountZero(fs, f => MessageStep(f, p, 0));
  }
}
