/** The rewriter of internal/provider/applewloc/wloc.go: message, record and location. */
module WLoc {
  import opened Bytes
  import opened Varint
  import opened Wire

  type int64 = x: int | -TWO63 <= x < TWO63

  /** A profile after validation, jitter and rounding: the numbers that are written. */
  datatype Profile = Profile(latitude: int64, longitude: int64, horizontalAccuracy: int64, altitude: int64,
                             verticalAccuracy: int64, motionType: Option<int64>, motionConfidence: Option<int64>)

  /** The map `vals`: field number to value. */
  function Vals(p: Profile): (m: map<nat, int64>)
    ensures m.Keys <= {1, 2, 3, 5, 6, 11, 12} && {1, 2, 3, 5, 6} <= m.Keys
    ensures 11 in m <==> p.motionType.Some?
    ensures 12 in m <==> p.motionConfidence.Some?
  {
    var five := map[1 := p.latitude, 2 := p.longitude, 3 := p.horizontalAccuracy, 5 := p.altitude,
                    6 := p.verticalAccuracy];
    var six := if p.motionType.Some? then five[11 := p.motionType.value] else five;
    if p.motionConfidence.Some? then six[12 := p.motionConfidence.value] else six
  }

  const TARGETS: seq<nat> := [1, 2, 3, 5, 6, 11, 12]

  // ---- location ----

  predicate IsVarint(f: Field, num: nat) {
    f.wire == 0 && f.num == num
  }

  predicate HasVarint(fs: seq<Field>, num: nat) {
    exists i | 0 <= i < |fs| :: IsVarint(fs[i], num)
  }

  predicate HasLocation(fs: seq<Field>) {
    HasVarint(fs, 1) && HasVarint(fs, 2)
  }

  function ValueField(num: nat, p: Profile): Field
    requires num in Vals(p)
  {
    VarField(num, Unsigned(Vals(p)[num]))
  }

  predicate Replaces(f: Field, p: Profile) {
    f.wire == 0 && f.num in Vals(p)
  }

  function Replace(f: Field, p: Profile): Field {
    if Replaces(f, p) then ValueField(f.num, p) else f
  }

  function Kept(fs: seq<Field>, p: Profile): seq<Field> {
    seq(|fs|, i requires 0 <= i < |fs| => Replace(fs[i], p))
  }

  function Missing(targets: seq<nat>, fs: seq<Field>, p: Profile): seq<Field> {
    if targets == [] then []
    else (if targets[0] in Vals(p) && !HasVarint(fs, targets[0]) then [ValueField(targets[0], p)] else [])
         + Missing(targets[1..], fs, p)
  }

  function LocationFields(fs: seq<Field>, p: Profile): seq<Field> {
    Kept(fs, p) + Missing(TARGETS, fs, p)
  }

  method HasLocationLoop(fs: seq<Field>) returns (r: bool)
    ensures r == HasLocation(fs)
  {
    var lat, lon := false, false;
    for i := 0 to |fs|
      invariant lat == HasVarint(fs[..i], 1) && lon == HasVarint(fs[..i], 2)
    {
      HasVarintStep(fs, i, 1);
      HasVarintStep(fs, i, 2);
      if fs[i].wire != 0 { continue; }
      if fs[i].num == 1 { lat := true; }
      if fs[i].num == 2 { lon := true; }
    }
    assert fs[..|fs|] == fs;
    return lat && lon;
  }

  lemma HasVarintStep(fs: seq<Field>, i: nat, num: nat)
    requires i < |fs|
    ensures HasVarint(fs[..i + 1], num) == (HasVarint(fs[..i], num) || IsVarint(fs[i], num))
  {
    var a, b := fs[..i], fs[..i + 1];
    if HasVarint(a, num) {
      var j :| 0 <= j < |a| && IsVarint(a[j], num);
      assert IsVarint(b[j], num);
    }
    if IsVarint(fs[i], num) {
      assert IsVarint(b[i], num);
    }
    if HasVarint(b, num) && !IsVarint(fs[i], num) {
      var j :| 0 <= j < |b| && IsVarint(b[j], num);
      assert IsVarint(a[j], num);
    }
  }

  lemma KeptStep(fs: seq<Field>, p: Profile, i: nat)
    requires i < |fs|
    ensures Concat(Kept(fs[..i + 1], p)) == Concat(Kept(fs[..i], p)) + Replace(fs[i], p).raw
  {
    hide EncVarint;
    assert Kept(fs[..i + 1], p) == Kept(fs[..i], p) + [Replace(fs[i], p)];
    ConcatAppend(Kept(fs[..i], p), [Replace(fs[i], p)]);
    assert Concat([Replace(fs[i], p)]) == Replace(fs[i], p).raw;
  }

  lemma {:induction false} MissingAppend(a: seq<nat>, b: seq<nat>, fs: seq<Field>, p: Profile)
    ensures Missing(a + b, fs, p) == Missing(a, fs, p) + Missing(b, fs, p)
  {
    if a == [] {
      assert a + b == b;
    } else {
      assert (a + b)[1..] == a[1..] + b;
      MissingAppend(a[1..], b, fs, p);
    }
  }

  lemma MissingStep(fs: seq<Field>, p: Profile, k: nat)
    requires k < |TARGETS|
    ensures var n := TARGETS[k];
      Concat(Missing(TARGETS[..k + 1], fs, p)) ==
      Concat(Missing(TARGETS[..k], fs, p)) + if n in Vals(p) && !HasVarint(fs, n) then ValueField(n, p).raw else []
  {
    hide EncVarint;
    var n := TARGETS[k];
    assert TARGETS[..k + 1] == TARGETS[..k] + [n];
    MissingAppend(TARGETS[..k], [n], fs, p);
    ConcatAppend(Missing(TARGETS[..k], fs, p), Missing([n], fs, p));
    assert [n][1..] == [];
  }

  lemma LoopsStart(fs: seq<Field>, p: Profile)
    ensures Concat(Kept(fs[..0], p)) == [] && Concat(Missing(TARGETS[..0], fs, p)) == []
    ensures forall n :: !HasVarint(fs[..0], n)
    ensures fs[..|fs|] == fs && TARGETS[..|TARGETS|] == TARGETS
  {
  }

  /** The first loop of `location`, with its condition as written. */
  method KeepLoop(fs: seq<Field>, p: Profile) returns (out: bytes, replaced: set<nat>)
    ensures out == Concat(Kept(fs, p))
    ensures forall n :: n in replaced <==> n in Vals(p) && HasVarint(fs, n)
  {
    hide EncVarint, Vals, Concat, Kept, HasVarint;
    out, replaced := [], {};
    var vals := Vals(p);
    LoopsStart(fs, p);
    for i := 0 to |fs|
      invariant out == Concat(Kept(fs[..i], p))
      invariant forall n :: n in replaced <==> n in vals && HasVarint(fs[..i], n)
    {
      var f := fs[i];
      KeptStep(fs, p, i);
      forall n ensures HasVarint(fs[..i + 1], n) == (HasVarint(fs[..i], n) || IsVarint(f, n)) {
        HasVarintStep(fs, i, n);
      }
      if (f.wire == 0 && (if f.num in vals then vals[f.num] else 0) != 0)
         || (f.wire == 0
             && (f.num == 1 || f.num == 2 || f.num == 3 || f.num == 5 || f.num == 6 || f.num == 11 || f.num == 12)) {
        if f.num in vals {
          out := out + (Key(f.num, 0) + EncVarint(Unsigned(vals[f.num])));
          replaced := replaced + {f.num};
          continue;
        }
      }
      out := out + f.raw;
    }
  }

  /** `location`: the fields in place, then the second loop for what was missing. */
  method LocationLoop(fs: seq<Field>, p: Profile) returns (out: bytes)
    ensures out == Concat(LocationFields(fs, p))
  {
    hide EncVarint, Vals, Concat, Kept, HasVarint, Missing;
    var replaced;
    out, replaced := KeepLoop(fs, p);
    var vals := Vals(p);
    LoopsStart(fs, p);
    for k := 0 to |TARGETS|
      invariant out == Concat(Kept(fs, p)) + Concat(Missing(TARGETS[..k], fs, p))
    {
      var n := TARGETS[k];
      MissingStep(fs, p, k);
      if n in vals && n !in replaced
         && (n < 7 || (p.motionType.Some? && n == 11) || (p.motionConfidence.Some? && n == 12)) {
        out := out + (Key(n, 0) + EncVarint(Unsigned(vals[n])));
      }
    }
    ConcatAppend(Kept(fs, p), Missing(TARGETS, fs, p));
  }

  // ---- record and message: the same walk over fields with a different step ----

  /** What happens to one field: parsing below it fails, it stays, or its payload is replaced. */
  datatype Step = Fail | Keep | Change(payload: bytes, locations: nat)

  datatype Walked = Walked(fields: seq<Field>, count: nat)

  function Apply(f: Field, s: Step): Field {
    if s.Change? then BytesField(f.num, s.payload) else f
  }

  function Locations(s: Step): nat {
    if s.Change? then s.locations else 0
  }

  function Join(w: Walked, rest: Option<Walked>): Option<Walked> {
    match rest
    case None => None
    case Some(r) => Some(Walked(w.fields + r.fields, w.count + r.count))
  }

  function Walk(fs: seq<Field>, step: Field -> Step): Option<Walked> {
    if fs == [] then Some(Walked([], 0))
    else
      var s := step(fs[0]);
      if s.Fail? then None else Join(Walked([Apply(fs[0], s)], Locations(s)), Walk(fs[1..], step))
  }

  function LocationNumber(recordType: nat): nat {
    if recordType == 2 then 2 else 5
  }

  function RecordStep(f: Field, p: Profile, recordType: nat, depth: nat): Step {
    if f.wire == 2 && f.num == LocationNumber(recordType) then
      match Parse(f.value, depth + 1)
      case Err(_) => Fail
      case Ok(loc) => if HasLocation(loc) then Change(Concat(LocationFields(loc, p)), 1) else Keep
    else Keep
  }

  datatype Rewritten = Rewritten(out: bytes, count: nat)

  function Print(w: Option<Walked>): Result<Rewritten> {
    match w
    case None => Err(Malformed)
    case Some(Walked(fs, n)) => Ok(Rewritten(Concat(fs), n))
  }

  function RewriteRecord(b: bytes, p: Profile, recordType: nat, depth: nat): Result<Rewritten> {
    match Parse(b, depth)
    case Err(e) => Err(e)
    case Ok(fs) => Print(Walk(fs, f => RecordStep(f, p, recordType, depth)))
  }

  predicate IsRecord(f: Field) {
    f.wire == 2 && (f.num == 2 || f.num == 22 || f.num == 24)
  }

  function MessageStep(f: Field, p: Profile, depth: nat): Step {
    if IsRecord(f) then
      match RewriteRecord(f.value, p, f.num, depth + 1)
      case Err(_) => Fail
      case Ok(Rewritten(child, n)) => if n > 0 then Change(child, n) else Keep
    else Keep
  }

  function RewriteProto(b: bytes, p: Profile, depth: nat): Result<Rewritten> {
    match Parse(b, depth)
    case Err(e) => Err(e)
    case Ok(fs) => Print(Walk(fs, f => MessageStep(f, p, depth)))
  }

  lemma JoinJoin(a: Walked, b: Walked, t: Option<Walked>)
    ensures Join(a, Join(b, t)) == Join(Walked(a.fields + b.fields, a.count + b.count), t)
  {
    if t.Some? {
      assert a.fields + (b.fields + t.value.fields) == (a.fields + b.fields) + t.value.fields;
    }
  }

  /** One turn of a loop that has walked fs[..i] into `w`. */
  lemma WalkStep(fs: seq<Field>, step: Field -> Step, w: Walked, i: nat)
    requires i < |fs| && Walk(fs, step) == Join(w, Walk(fs[i..], step))
    ensures var s := step(fs[i]);
      if s.Fail? then Walk(fs, step) == None
      else Walk(fs, step) == Join(After(w, fs[i], s), Walk(fs[i + 1..], step))
    ensures Concat(After(w, fs[i], step(fs[i])).fields) == Concat(w.fields) + Apply(fs[i], step(fs[i])).raw
  {
    hide EncVarint;
    var s := step(fs[i]);
    var g := Apply(fs[i], s);
    ConcatAppend(w.fields, [g]);
    assert Concat([g]) == g.raw;
    WalkHead(fs, i, step);
    JoinAfter(w, fs[i], s, Walk(fs[i + 1..], step));
  }

  function After(w: Walked, f: Field, s: Step): Walked {
    Walked(w.fields + [Apply(f, s)], w.count + Locations(s))
  }

  lemma WalkHead(fs: seq<Field>, i: nat, step: Field -> Step)
    requires i < |fs|
    ensures var s := step(fs[i]);
      Walk(fs[i..], step) ==
      if s.Fail? then None else Join(Walked([Apply(fs[i], s)], Locations(s)), Walk(fs[i + 1..], step))
  {
    assert fs[i..][1..] == fs[i + 1..];
  }

  lemma JoinAfter(w: Walked, f: Field, s: Step, t: Option<Walked>)
    ensures Join(w, Join(Walked([Apply(f, s)], Locations(s)), t)) == Join(After(w, f, s), t)
  {
    JoinJoin(w, Walked([Apply(f, s)], Locations(s)), t);
  }

  lemma WalkStart(fs: seq<Field>, step: Field -> Step)
    ensures Walk(fs, step) == Join(Walked([], 0), Walk(fs[0..], step)) && Concat([]) == []
  {
    assert fs[0..] == fs;
    var w := Walk(fs, step);
    if w.Some? { assert [] + w.value.fields == w.value.fields; }
  }

  lemma WalkEnd(fs: seq<Field>, step: Field -> Step, w: Walked)
    requires Walk(fs, step) == Join(w, Walk(fs[|fs|..], step))
    ensures Walk(fs, step) == Some(w)
  {
    assert fs[|fs|..] == [] && w.fields + [] == w.fields;
  }

  method RewriteRecordLoop(b: bytes, p: Profile, recordType: nat, depth: nat) returns (r: Result<Rewritten>)
    ensures r == RewriteRecord(b, p, recordType, depth)
  {
    hide EncVarint, Fields, Walk, Concat;
    var parsed := ParseLoop(b, depth);
    if parsed.Err? { return Err(parsed.error); }
    var fs := parsed.value;
    var out: bytes, n: nat := [], 0;
    ghost var step := (f: Field) => RecordStep(f, p, recordType, depth);
    ghost var w := Walked([], 0);
    WalkStart(fs, step);
    for i := 0 to |fs|
      invariant out == Concat(w.fields) && n == w.count
      invariant Walk(fs, step) == Join(w, Walk(fs[i..], step))
    {
      var f := fs[i];
      WalkStep(fs, step, w, i);
      var locationField := 5;
      if recordType == 2 { locationField := 2; }
      if f.wire == 2 && f.num == locationField {
        var loc := ParseLoop(f.value, depth + 1);
        if loc.Err? { return Err(Malformed); }
        var has := HasLocationLoop(loc.value);
        if has {
          var x := LocationLoop(loc.value, p);
          out := out + (Key(f.num, 2) + EncVarint(|x|) + x);
          n := n + 1;
          w := After(w, f, step(f));
          continue;
        }
      }
      out := out + f.raw;
      w := After(w, f, step(f));
    }
    WalkEnd(fs, step, w);
    return Ok(Rewritten(out, n));
  }

  method RewriteProtoLoop(b: bytes, p: Profile, depth: nat) returns (r: Result<Rewritten>)
    ensures r == RewriteProto(b, p, depth)
  {
    hide EncVarint, Fields, Walk, Concat;
    var parsed := ParseLoop(b, depth);
    if parsed.Err? { return Err(parsed.error); }
    var fs := parsed.value;
    var out: bytes, count: nat := [], 0;
    ghost var step := (f: Field) => MessageStep(f, p, depth);
    ghost var w := Walked([], 0);
    WalkStart(fs, step);
    for i := 0 to |fs|
      invariant out == Concat(w.fields) && count == w.count
      invariant Walk(fs, step) == Join(w, Walk(fs[i..], step))
    {
      var f := fs[i];
      WalkStep(fs, step, w, i);
      if f.wire == 2 && (f.num == 2 || f.num == 22 || f.num == 24) {
        var record := RewriteRecordLoop(f.value, p, f.num, depth + 1);
        if record.Err? { return Err(record.error); }
        var Rewritten(child, n) := record.value;
        if n > 0 {
          out := out + (Key(f.num, 2) + EncVarint(|child|) + child);
          count := count + n;
          w := After(w, f, step(f));
          continue;
        }
      }
      out := out + f.raw;
      w := After(w, f, step(f));
    }
    WalkEnd(fs, step, w);
    return Ok(Rewritten(out, count));
  }
}
