/** RewriteBody of internal/provider/applewloc/wloc.go: the envelope loop, from the size check on. */
module RewriteBody {
  import opened Bytes
  import opened Wire
  import opened WLoc
  import opened WLocGrowth
  import opened WLocMeaning
  import opened WLocAbsorb
  import opened Envelope

  datatype Body = Body(out: bytes, kind: Kind, locations: nat)

  /** What one envelope kind makes of a body: the loop goes on, or it returns. */
  datatype Attempt = Next | Return(result: Result<Body>)

  function Try(b: bytes, p: Profile, kind: Kind): Attempt {
    match Unwrap(b, kind)
    case TwoMarkers => Return(Err(Ambiguous))
    case NotThis => Next
    case Payload(x, frame) =>
      match RewriteProto(x, p, 0)
      case Err(e) => Return(Err(e))
      case Ok(Rewritten(y, n)) =>
        if n == 0 then Next
        else if Parse(y, 0).Err? then Return(Err(Parse(y, 0).error))
        else if (kind == FixedPrefix || kind == Marker) && |y| >= TWO16 then Return(Err(Malformed))
        else Return(Ok(Body(Wrap(frame, y), kind, n)))
  }

  const KINDS: seq<Kind> := [FixedPrefix, Arpc, Marker, Bare]

  function TryAll(b: bytes, p: Profile, kinds: seq<Kind>): Result<Body> {
    if kinds == [] then Err(Unsupported)
    else
      match Try(b, p, kinds[0])
      case Next => TryAll(b, p, kinds[1..])
      case Return(r) => r
  }

  function Rewrite(b: bytes, p: Profile): Result<Body> {
    if |b| > MAX_MESSAGE then Err(Malformed) else TryAll(b, p, KINDS)
  }

  method RewriteLoop(b: bytes, p: Profile) returns (r: Result<Body>)
    ensures r == Rewrite(b, p)
  {
    hide Unwrap, RewriteProto, Parse, Wrap;
    if |b| > MAX_MESSAGE { return Err(Malformed); }
    for k := 0 to |KINDS|
      invariant Rewrite(b, p) == TryAll(b, p, KINDS[k..])
    {
      var kind := KINDS[k];
      assert KINDS[k..][1..] == KINDS[k + 1..];
      var u := UnwrapAny(b, kind);
      if u == TwoMarkers { return Err(Ambiguous); }
      if u == NotThis { continue; }
      var rewritten := RewriteProtoLoop(u.payload, p, 0);
      if rewritten.Err? { return Err(rewritten.error); }
      var Rewritten(out, n) := rewritten.value;
      if n == 0 { continue; }
      var again := ParseLoop(out, 0);
      if again.Err? { return Err(again.error); }
      if (kind == FixedPrefix || kind == Marker) && |out| > TWO16 - 1 { return Err(Malformed); }
      return Ok(Body(Wrap(u.frame, out), kind, n));
    }
    return Err(Unsupported);
  }

  /** The re-parse of a rewritten message never fails: its field count is unchanged and every field parses. */
  lemma ReparseNeverFails(x: bytes, p: Profile)
    requires Fits(x) && RewriteProto(x, p, 0).Ok?
    ensures Parse(RewriteProto(x, p, 0).value.out, 0).Ok?
    ensures |Fields(RewriteProto(x, p, 0).value.out).value| == |Fields(x).value|
  {
    hide Fields, One, Walk, MessageStep, Concat;
    var fs := Parse(x, 0).value;
    ParseIsFields(x, 0);
    var step := (f: Field) => MessageStep(f, p, 0);
    WalkPointwise(fs, step);
    MessageGrowth(x, p, 0);
    FieldsOfConcat(Walk(fs, step).value.fields);
  }

  lemma PayloadInside(b: bytes, kind: Kind)
    requires Unwrap(b, kind).Payload?
    ensures |Unwrap(b, kind).payload| <= |b|
    ensures Parse(Unwrap(b, kind).payload, 0).Ok?
    ensures Unwrap(b, kind).frame.width == if kind == Bare then 0 else if kind == Arpc then 4 else 2
    ensures kind == Bare ==> Unwrap(b, kind).frame == Frame([], 0, [])
    ensures |Unwrap(b, kind).frame.head| + |Unwrap(b, kind).frame.tail| + |Unwrap(b, kind).payload| <= |b|
  {
    hide Parse, MarkerAt;
    if kind == Marker {
      var i := Markers(b, |b|)[0];
      MarkersAre(b, |b|);
      MarkerPayloadInside(b, i);
    }
  }

  lemma MarkerPayloadInside(b: bytes, i: nat)
    requires Valid(b, i)
    ensures var u := MarkerAt(b, i);
      && |u.frame.head| + |u.frame.tail| + |u.payload| <= |b|
      && Parse(u.payload, 0).Ok? && u.frame.width == 2
  {
    hide Parse;
  }

  ghost predicate FirstToReturn(b: bytes, p: Profile, kinds: seq<Kind>, k: nat)
    requires k < |kinds|
  {
    Try(b, p, kinds[k]).Return? && forall j | 0 <= j < k :: Try(b, p, kinds[j]) == Next
  }

  lemma {:induction false} SuccessIsOneTry(b: bytes, p: Profile, kinds: seq<Kind>)
    requires TryAll(b, p, kinds).Ok?
    ensures var r := TryAll(b, p, kinds);
      exists k | 0 <= k < |kinds| :: FirstToReturn(b, p, kinds, k) && Try(b, p, kinds[k]) == Return(r)
  {
    hide Try;
    var r := TryAll(b, p, kinds);
    if Try(b, p, kinds[0]) == Next {
      SuccessIsOneTry(b, p, kinds[1..]);
      var k :| 0 <= k < |kinds[1..]| && FirstToReturn(b, p, kinds[1..], k) && Try(b, p, kinds[1..][k]) == Return(r);
      forall j | 0 <= j < k + 1 ensures Try(b, p, kinds[j]) == Next {
        if j > 0 { assert kinds[j] == kinds[1..][j - 1]; }
      }
      assert FirstToReturn(b, p, kinds, k + 1);
    } else {
      assert FirstToReturn(b, p, kinds, 0);
    }
  }

  lemma TrySucceeds(b: bytes, p: Profile, kind: Kind)
    requires |b| <= MAX_MESSAGE && Try(b, p, kind).Return? && Try(b, p, kind).result.Ok?
    ensures Unwrap(b, kind).Payload? && Fits(Unwrap(b, kind).payload)
    ensures RewriteProto(Unwrap(b, kind).payload, p, 0).Ok?
    ensures var x, frame := Unwrap(b, kind).payload, Unwrap(b, kind).frame;
      var Rewritten(y, n) := RewriteProto(x, p, 0).value;
      && Try(b, p, kind).result.value == Body(Wrap(frame, y), kind, n)
      && n > 0
      && Parse(y, 0).Ok?
      && |y| <= 20 * |x|
      && (kind == FixedPrefix || kind == Marker ==> |y| < TWO16)
      && |y| < TWO32
      && |Wrap(frame, y)| <= 20 * |b| + 4
  {
    hide Unwrap, RewriteProto, Parse, Size;
    PayloadInside(b, kind);
    var x, frame := Unwrap(b, kind).payload, Unwrap(b, kind).frame;
    MessageGrowth(x, p, 0);
    SizeOfFrame(frame, RewriteProto(x, p, 0).value.out);
  }

  lemma SizeOfFrame(f: Frame, x: bytes)
    ensures |Size(f.width, |x|)| <= 4
    ensures f.width in {0, 2, 4} ==> |Size(f.width, |x|)| == f.width
  {
  }

  /**
   * A body that is rewritten keeps everything outside its payload; the payload is rewritten as the profile
   * says; and unwrapping the new body in the same way finds the new payload (for the marker envelope, unless
   * the new bytes contain a second marker).
   */
  lemma BodyMeaning(b: bytes, p: Profile)
    requires Rewrite(b, p).Ok?
    ensures var Body(out, kind, n) := Rewrite(b, p).value;
      && Unwrap(b, kind).Payload?
      && var Payload(x, frame) := Unwrap(b, kind);
      && RewriteProto(x, p, 0).Ok?
      && var y := RewriteProto(x, p, 0).value.out;
      && Wrap(frame, x) == b && Wrap(frame, y) == out
      && n > 0 && n == MessageLocations(Fields(x).value)
      && MessageRewritten(x, y, p)
      && (Unwrap(out, kind) == Payload(y, frame) || (kind == Marker && Unwrap(out, kind) == TwoMarkers))
      && |out| <= 20 * |b| + 4
  {
    hide Unwrap, RewriteProto, Parse, Wrap, Try, MessageRewritten, Fields, MessageLocations;
    SuccessIsOneTry(b, p, KINDS);
    var kind := Rewrite(b, p).value.kind;
    var k :| 0 <= k < |KINDS| && FirstToReturn(b, p, KINDS, k) && Try(b, p, KINDS[k]) == Return(Rewrite(b, p));
    TrySucceeds(b, p, KINDS[k]);
    var x, frame := Unwrap(b, kind).payload, Unwrap(b, kind).frame;
    var y := RewriteProto(x, p, 0).value.out;
    RewriteMeaning(x, p);
    Rewrap(b, kind);
    PayloadInside(b, kind);
    UnwrapsAgain(b, y, kind);
  }

  // ---- which envelope decides, and how ----

  /** One envelope, by what is inside: the re-parse plays no part, and only 16-bit lengths refuse a result. */
  lemma TryMeans(b: bytes, p: Profile, kind: Kind)
    requires |b| <= MAX_MESSAGE
    ensures Unwrap(b, kind).NotThis? ==> Try(b, p, kind) == Next
    ensures Unwrap(b, kind).TwoMarkers? ==> Try(b, p, kind) == Return(Err(Ambiguous))
    ensures Unwrap(b, kind).Payload? ==>
      var Payload(x, frame) := Unwrap(b, kind);
      if !Readable(x) then Try(b, p, kind) == Return(Err(Malformed))
      else if MessageLocations(Fields(x).value) == 0 then Try(b, p, kind) == Next
      else
        && RewriteProto(x, p, 0).Ok?
        && var Rewritten(y, n) := RewriteProto(x, p, 0).value;
           Try(b, p, kind) == Return(
             if |y| > 65535 && (kind == FixedPrefix || kind == Marker) then Err(Malformed)
             else Ok(Body(Wrap(frame, y), kind, n)))
  {
    hide Unwrap, RewriteProto, Parse, Wrap, Fields, MessageLocations, Readable, MessageRewritten;
    if Unwrap(b, kind).Payload? {
      var x := Unwrap(b, kind).payload;
      PayloadInside(b, kind);
      RewriteFailsExactlyWhenUnreadable(x, p);
      OnlyMalformed(x, p);
      if Readable(x) {
        RewriteMeaning(x, p);
        ReparseNeverFails(x, p);
      }
    }
  }

  /** The fixed prefix is tried first, then ARPC, then the marker, then the bare message; none beyond 4 MiB. */
  lemma TriedInOrder(b: bytes, p: Profile)
    ensures Rewrite(b, p) ==
      if |b| > 4194304 then Err(Malformed)
      else if Try(b, p, FixedPrefix).Return? then Try(b, p, FixedPrefix).result
      else if Try(b, p, Arpc).Return? then Try(b, p, Arpc).result
      else if Try(b, p, Marker).Return? then Try(b, p, Marker).result
      else if Try(b, p, Bare).Return? then Try(b, p, Bare).result
      else Err(Unsupported)
  {
    hide Try, TryAll;
    assert KINDS == [FixedPrefix] + [Arpc, Marker, Bare] && [Arpc, Marker, Bare] == [Arpc] + [Marker, Bare];
    assert [Marker, Bare] == [Marker] + [Bare] && [Bare] == [Bare] + [];
    TriesOn(b, p, FixedPrefix, [Arpc, Marker, Bare]);
    TriesOn(b, p, Arpc, [Marker, Bare]);
    TriesOn(b, p, Marker, [Bare]);
    TriesOn(b, p, Bare, []);
    NoneLeft(b, p);
  }

  lemma NoneLeft(b: bytes, p: Profile)
    ensures TryAll(b, p, []) == Err(Unsupported)
  {
  }

  lemma TriesOn(b: bytes, p: Profile, kind: Kind, more: seq<Kind>)
    ensures TryAll(b, p, [kind] + more) == match Try(b, p, kind) case Next => TryAll(b, p, more) case Return(r) => r
  {
    hide Try;
    assert ([kind] + more)[1..] == more;
  }

  // ---- rewriting a body twice ----

  function Rank(kind: Kind): nat {
    match kind case FixedPrefix => 0 case Arpc => 1 case Marker => 2 case Bare => 3
  }

  /** This envelope leaves the body to the next one, with any profile: it is not there, or holds no location. */
  ghost predicate PassedOn(b: bytes, kind: Kind) {
    match Unwrap(b, kind)
    case NotThis => true
    case TwoMarkers => false
    case Payload(x, _) => Readable(x) && MessageLocations(Fields(x).value) == 0
  }

  /** Every envelope before this one leaves the body to the next. */
  ghost predicate Reaches(b: bytes, kind: Kind) {
    forall j | 0 <= j < Rank(kind) :: PassedOn(b, KINDS[j])
  }

  lemma PassedOnIsNext(b: bytes, p: Profile, kind: Kind)
    requires |b| <= MAX_MESSAGE
    ensures PassedOn(b, kind) <==> Try(b, p, kind) == Next
  {
    hide Unwrap, RewriteProto, Parse, Wrap, Fields, MessageLocations, Readable, MessageRewritten;
    if Unwrap(b, kind).Payload? {
      var x := Unwrap(b, kind).payload;
      PayloadInside(b, kind);
      RewriteFailsExactlyWhenUnreadable(x, p);
      if Readable(x) { RewriteMeaning(x, p); }
    }
  }

  lemma {:induction false} FirstDecides(b: bytes, p: Profile, kinds: seq<Kind>, k: nat)
    requires k < |kinds| && FirstToReturn(b, p, kinds, k)
    ensures TryAll(b, p, kinds) == Try(b, p, kinds[k]).result
  {
    hide Try;
    if k > 0 {
      forall j | 0 <= j < k - 1 ensures Try(b, p, kinds[1..][j]) == Next {
        assert kinds[1..][j] == kinds[j + 1];
      }
      FirstDecides(b, p, kinds[1..], k - 1);
    }
  }

  /** The envelope that the loop reaches and that returns decides. */
  lemma ReachedDecides(b: bytes, p: Profile, kind: Kind)
    requires |b| <= MAX_MESSAGE && Reaches(b, kind) && Try(b, p, kind).Return?
    ensures Rewrite(b, p) == Try(b, p, kind).result
  {
    hide Try, PassedOn, TryAll;
    forall j | 0 <= j < Rank(kind) ensures Try(b, p, KINDS[j]) == Next {
      PassedOnIsNext(b, p, KINDS[j]);
    }
    assert FirstToReturn(b, p, KINDS, Rank(kind));
    FirstDecides(b, p, KINDS, Rank(kind));
  }

  lemma SuccessReaches(b: bytes, p: Profile)
    requires Rewrite(b, p).Ok?
    ensures var kind := Rewrite(b, p).value.kind;
      Reaches(b, kind) && Try(b, p, kind) == Return(Rewrite(b, p))
  {
    hide Try, PassedOn, TryAll;
    SuccessIsOneTry(b, p, KINDS);
    var k :| 0 <= k < |KINDS| && FirstToReturn(b, p, KINDS, k) && Try(b, p, KINDS[k]) == Return(Rewrite(b, p));
    TrySucceeds(b, p, KINDS[k]);
    forall j | 0 <= j < k ensures PassedOn(b, KINDS[j]) {
      PassedOnIsNext(b, p, KINDS[j]);
    }
    assert Rank(KINDS[k]) == k;
  }

  /** What one envelope makes of a body that it has rewritten before. */
  lemma TryAgain(b: bytes, p: Profile, q: Profile, kind: Kind, done: Body)
    requires |b| <= MAX_MESSAGE && SameTargets(p, q) && Try(b, p, kind) == Return(Ok(done))
    ensures Unwrap(b, kind).Payload?
    ensures Try(done.out, q, kind) ==
      if Unwrap(done.out, kind) == TwoMarkers then Return(Err(Ambiguous))
      else if MessageRoom(Fields(Unwrap(b, kind).payload).value, p) then Try(b, q, kind) else Return(Err(Malformed))
    ensures Try(b, q, kind).Return?
    ensures Unwrap(done.out, kind) == TwoMarkers ==> kind == Marker
  {
    hide Unwrap, RewriteProto, Parse, Wrap, MessageRoom, Fields, Readable, MessageRewritten, MessageLocations;
    TrySucceeds(b, p, kind);
    var x, frame := Unwrap(b, kind).payload, Unwrap(b, kind).frame;
    var y := RewriteProto(x, p, 0).value.out;
    UnwrapsAgain(b, y, kind);
    Absorption(x, p, q);
    RewriteMeaning(x, p);
    RewriteFailsExactlyWhenUnreadable(x, p);
    RewriteFailsExactlyWhenUnreadable(x, q);
    RewriteMeaning(x, q);
    OnlyMalformed(y, q);
  }

  /** A new payload is found where the old one was, unless it brings a second marker. */
  lemma UnwrapsAgain(b: bytes, y: bytes, kind: Kind)
    requires Unwrap(b, kind).Payload? && Parse(y, 0).Ok? && |y| < TWO32
    requires kind == FixedPrefix || kind == Marker ==> |y| < TWO16
    ensures var frame := Unwrap(b, kind).frame;
      var again := Unwrap(Wrap(frame, y), kind);
      again == Payload(y, frame) || (kind == Marker && again == TwoMarkers)
  {
    hide Unwrap, Parse, Wrap;
    PayloadInside(b, kind);
    match kind {
      case FixedPrefix => FixedRoundTrip(b, y);
      case Arpc => ArpcRoundTrip(b, y);
      case Marker => MarkerRoundTrip(b, y);
      case Bare => BareRoundTrip(y);
    }
  }

  /** An earlier envelope takes the body. */
  ghost predicate TakenEarlier(b: bytes, p: Profile, kind: Kind, r: Result<Body>) {
    exists j | 0 <= j < Rank(kind) :: FirstToReturn(b, p, KINDS, j) && r == Try(b, p, KINDS[j]).result
  }

  /**
   * A body that was rewritten may be rewritten again. In the same envelope the second profile is all that shows,
   * unless the new bytes brought a second marker or a location has no room. The first output may also be too long
   * a body, or have become one that an earlier envelope takes, which cannot be when there is none.
   */
  lemma BodyAbsorption(b: bytes, p: Profile, q: Profile)
    requires Rewrite(b, p).Ok? && SameTargets(p, q)
    ensures var Body(out, kind, _) := Rewrite(b, p).value;
      && Unwrap(b, kind).Payload?
      && (|out| > MAX_MESSAGE ==> Rewrite(out, q) == Err(Malformed))
      && (|out| <= MAX_MESSAGE && Reaches(out, kind) ==>
            Rewrite(out, q) == (
              if Unwrap(out, kind) == TwoMarkers then Err(Ambiguous)
              else if MessageRoom(Fields(Unwrap(b, kind).payload).value, p) then Rewrite(b, q)
              else Err(Malformed)))
      && (|out| <= MAX_MESSAGE && !Reaches(out, kind) ==> TakenEarlier(out, q, kind, Rewrite(out, q)))
  {
    hide Unwrap, Try, MessageRoom, Fields, TryAll, PassedOn;
    var Body(out, kind, _) := Rewrite(b, p).value;
    SuccessReaches(b, p);
    TryAgain(b, p, q, kind, Rewrite(b, p).value);
    ReachedDecides(b, q, kind);
    if |out| <= MAX_MESSAGE {
      if Reaches(out, kind) { ReachedDecides(out, q, kind); } else { EarlierDecides(out, q, kind); }
    }
  }

  lemma EarlierDecides(b: bytes, p: Profile, kind: Kind)
    requires |b| <= MAX_MESSAGE && !Reaches(b, kind)
    ensures TakenEarlier(b, p, kind, Rewrite(b, p))
  {
    hide Try, PassedOn, TryAll;
    var j: nat := 0;
    while PassedOn(b, KINDS[j])
      invariant j < Rank(kind)
      invariant forall i | 0 <= i < j :: PassedOn(b, KINDS[i])
      decreases Rank(kind) - j
    {
      j := j + 1;
    }
    forall i | 0 <= i <= j ensures PassedOn(b, KINDS[i]) <==> Try(b, p, KINDS[i]) == Next {
      PassedOnIsNext(b, p, KINDS[i]);
    }
    assert FirstToReturn(b, p, KINDS, j);
    FirstDecides(b, p, KINDS, j);
  }

  /** In the fixed-prefix envelope, the first to be tried, neither markers nor earlier envelopes come into it. */
  lemma FixedPrefixAbsorption(b: bytes, p: Profile, q: Profile)
    requires Rewrite(b, p).Ok? && Rewrite(b, p).value.kind == FixedPrefix && SameTargets(p, q)
    ensures Unwrap(b, FixedPrefix).Payload?
    ensures Rewrite(Rewrite(b, p).value.out, q) ==
      if |Rewrite(b, p).value.out| <= MAX_MESSAGE && MessageRoom(Fields(Unwrap(b, FixedPrefix).payload).value, p)
      then Rewrite(b, q) else Err(Malformed)
  {
    hide Rewrite, MessageRoom, Fields, PassedOn;
    BodyAbsorption(b, p, q);
  }

  lemma OnlyMalformed(x: bytes, p: Profile)
    ensures RewriteProto(x, p, 0).Err? ==> RewriteProto(x, p, 0) == Err(Malformed)
  {
  }
}
