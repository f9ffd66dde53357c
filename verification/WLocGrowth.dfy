/** How much longer a rewritten message can be, through both nested length prefixes. */
module WLocGrowth {
  import opened Bytes
  import opened Varint
  import opened Wire
  import opened WLoc

  /** Length up to which every length prefix of the output stays a 64-bit varint. */
  ghost predicate Fits(b: bytes) {
    20 * |b| < TWO64
  }

  lemma {:induction false} EncVarintSmall(v: nat)
    ensures v < 128 ==> |EncVarint(v)| == 1
    ensures v < 16384 ==> |EncVarint(v)| <= 2
  {
    if v >= 128 { assert |EncVarint(v / 128)| == 1 || v / 128 >= 128; }
  }

  lemma ValueFieldSize(num: nat, p: Profile)
    requires num in Vals(p)
    ensures WellFormed(ValueField(num, p)) && |ValueField(num, p).raw| <= 11
  {
    hide EncVarint;
    var v := Unsigned(Vals(p)[num]);
    VarFieldWellFormed(num, v);
    EncVarintSmall(num * 8);
    VarintRoundTrip(v, []);
  }

  lemma {:induction false} KeptSize(fs: seq<Field>, p: Profile)
    requires AllWellFormed(fs)
    ensures AllWellFormed(Kept(fs, p)) && |Concat(Kept(fs, p))| <= 6 * |Concat(fs)|
  {
    hide Vals, EncVarint, One;
    if fs != [] {
      assert WellFormed(fs[0]);
      KeptSize(fs[1..], p);
      assert Kept(fs, p) == [Replace(fs[0], p)] + Kept(fs[1..], p);
      if Replaces(fs[0], p) { ValueFieldSize(fs[0].num, p); }
    }
  }

  lemma {:induction false} MissingSize(targets: seq<nat>, fs: seq<Field>, p: Profile)
    ensures var m := Missing(targets, fs, p);
      AllWellFormed(m) && |m| <= |targets| && |Concat(m)| <= 11 * |m|
  {
    hide Vals, EncVarint, One, HasVarint;
    if targets != [] {
      MissingSize(targets[1..], fs, p);
      var n, rest := targets[0], Missing(targets[1..], fs, p);
      if n in Vals(p) && !HasVarint(fs, n) {
        ValueFieldSize(n, p);
        assert Missing(targets, fs, p) == [ValueField(n, p)] + rest;
        assert Missing(targets, fs, p)[1..] == rest;
      } else {
        assert Missing(targets, fs, p) == rest;
      }
    }
  }

  /** Latitude and longitude are present, so at most five fields are appended. */
  lemma MissingAtMostFive(fs: seq<Field>, p: Profile)
    requires HasLocation(fs)
    ensures |Missing(TARGETS, fs, p)| <= 5
  {
    hide Vals, EncVarint, HasVarint;
    assert TARGETS == [1, 2] + [3, 5, 6, 11, 12];
    MissingAppend([1, 2], [3, 5, 6, 11, 12], fs, p);
    assert [1, 2][1..] == [2] && [2][1..] == [];
    assert Missing([2], fs, p) == [] && Missing([1, 2], fs, p) == [];
    MissingSize([3, 5, 6, 11, 12], fs, p);
  }

  lemma {:induction false} TwoBytesPerField(fs: seq<Field>)
    requires AllWellFormed(fs)
    ensures |Concat(fs)| >= 2 * |fs|
  {
    hide One;
    if fs != [] {
      assert WellFormed(fs[0]);
      TwoBytesPerField(fs[1..]);
    }
  }

  lemma LocationGrowth(fs: seq<Field>, p: Profile)
    requires AllWellFormed(fs) && HasLocation(fs)
    ensures AllWellFormed(LocationFields(fs, p))
    ensures |Concat(LocationFields(fs, p))| <= 6 * |Concat(fs)| + 55 && |Concat(fs)| >= 4
    ensures |fs| <= |LocationFields(fs, p)| <= |fs| + 5
  {
    hide Vals, EncVarint, One;
    KeptSize(fs, p);
    MissingSize(TARGETS, fs, p);
    MissingAtMostFive(fs, p);
    ConcatAppend(Kept(fs, p), Missing(TARGETS, fs, p));
    var i :| 0 <= i < |fs| && IsVarint(fs[i], 1);
    var j :| 0 <= j < |fs| && IsVarint(fs[j], 2);
    TwoBytesPerField(fs);
  }

  /** A step that keeps every field within twenty times its size, with thirty bytes to spare per location. */
  ghost predicate Modest(f: Field, s: Step) {
    s.Change? ==>
      && s.locations >= 1
      && WellFormed(Apply(f, s))
      && |Apply(f, s).raw| + 30 * s.locations <= 20 * |f.raw|
  }

  lemma {:induction false} WalkGrowth(fs: seq<Field>, step: Field -> Step)
    requires AllWellFormed(fs) && Walk(fs, step).Some?
    requires forall i | 0 <= i < |fs| :: Modest(fs[i], step(fs[i]))
    ensures var w := Walk(fs, step).value;
      AllWellFormed(w.fields) && |Concat(w.fields)| + 30 * w.count <= 20 * |Concat(fs)|
  {
    hide EncVarint, One, BytesField;
    if fs != [] {
      var s := step(fs[0]);
      assert WellFormed(fs[0]) && Modest(fs[0], s);
      WalkGrowth(fs[1..], step);
      var w, v := Walk(fs, step).value, Walk(fs[1..], step).value;
      assert w.fields == [Apply(fs[0], s)] + v.fields && w.fields[1..] == v.fields;
      assert w.count == Locations(s) + v.count;
    }
  }

  lemma BytesFieldSize(num: nat, x: bytes)
    requires num in {2, 5, 22, 24} && |x| < TWO64
    ensures WellFormed(BytesField(num, x)) && |BytesField(num, x).raw| <= 12 + |x|
    ensures num in {2, 5} ==> |BytesField(num, x).raw| <= 11 + |x|
  {
    hide EncVarint;
    BytesFieldWellFormed(num, x);
    EncVarintSmall(num * 8 + 2);
    VarintRoundTrip(|x|, []);
  }

  /** The payload of a field is shorter than the message that holds it. */
  lemma {:induction false} InsideIsShorter(fs: seq<Field>, i: nat)
    requires AllWellFormed(fs) && i < |fs|
    ensures |fs[i].value| <= |fs[i].raw| <= |Concat(fs)|
  {
    hide One;
    assert WellFormed(fs[0]);
    if i > 0 { InsideIsShorter(fs[1..], i - 1); }
  }

  lemma ParseIsFields(b: bytes, depth: nat)
    requires Parse(b, depth).Ok?
    ensures Fields(b) == Some(Parse(b, depth).value)
    ensures Concat(Parse(b, depth).value) == b && AllWellFormed(Parse(b, depth).value)
  {
    hide Fields;
    ConcatOfFields(b);
  }

  lemma RecordStepModest(f: Field, p: Profile, rt: nat, depth: nat)
    requires WellFormed(f) && Fits(f.value)
    ensures Modest(f, RecordStep(f, p, rt, depth))
  {
    hide Vals, EncVarint, Fields, LocationFields, HasVarint, BytesField, Concat;
    var s := RecordStep(f, p, rt, depth);
    if s.Change? {
      var loc := Parse(f.value, depth + 1).value;
      ParseIsFields(f.value, depth + 1);
      LocationGrowth(loc, p);
      BytesFieldSize(f.num, s.payload);
      assert |f.raw| >= |f.value| + 2;
    }
  }

  lemma RecordGrowth(b: bytes, p: Profile, rt: nat, depth: nat)
    requires Fits(b) && RewriteRecord(b, p, rt, depth).Ok?
    ensures var Rewritten(out, n) := RewriteRecord(b, p, rt, depth).value;
      |out| + 30 * n <= 20 * |b|
    ensures AllWellFormed(Walk(Parse(b, depth).value, f => RecordStep(f, p, rt, depth)).value.fields)
  {
    hide Fields, One, Walk, RecordStep, Concat;
    var fs := Parse(b, depth).value;
    ParseIsFields(b, depth);
    forall i | 0 <= i < |fs| ensures Modest(fs[i], RecordStep(fs[i], p, rt, depth)) {
      InsideIsShorter(fs, i);
      assert WellFormed(fs[i]);
      RecordStepModest(fs[i], p, rt, depth);
    }
    WalkGrowth(fs, f => RecordStep(f, p, rt, depth));
  }

  lemma MessageStepModest(f: Field, p: Profile, depth: nat)
    requires WellFormed(f) && Fits(f.value)
    ensures Modest(f, MessageStep(f, p, depth))
  {
    hide RewriteRecord, BytesField, EncVarint;
    var s := MessageStep(f, p, depth);
    if s.Change? {
      RecordGrowth(f.value, p, f.num, depth + 1);
      BytesFieldSize(f.num, s.payload);
      assert |f.raw| >= |f.value| + 2;
    }
  }

  /** The output is at most twenty times the input, thirty bytes less for every location it holds. */
  lemma MessageGrowth(b: bytes, p: Profile, depth: nat)
    requires Fits(b) && RewriteProto(b, p, depth).Ok?
    ensures var Rewritten(out, n) := RewriteProto(b, p, depth).value;
      |out| + 30 * n <= 20 * |b|
    ensures AllWellFormed(Walk(Parse(b, depth).value, f => MessageStep(f, p, depth)).value.fields)
  {
    hide Fields, One, Walk, MessageStep, Concat;
    var fs := Parse(b, depth).value;
    ParseIsFields(b, depth);
    forall i | 0 <= i < |fs| ensures Modest(fs[i], MessageStep(fs[i], p, depth)) {
      InsideIsShorter(fs, i);
      assert WellFormed(fs[i]);
      MessageStepModest(fs[i], p, depth);
    }
    WalkGrowth(fs, f => MessageStep(f, p, depth));
  }
}
