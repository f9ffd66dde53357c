/** The four envelope framings of `unwrap` in internal/provider/applewloc/wloc.go and their `wrap` closures. */
module Envelope {
  import opened Bytes
  import opened Wire

  datatype Kind = FixedPrefix | Arpc | Marker | Bare

  /** What a wrap closure keeps of the body: the bytes before the length, its width in bytes, the bytes after. */
  datatype Frame = Frame(head: bytes, width: nat, tail: bytes)

  datatype Unwrapped = NotThis | TwoMarkers | Payload(payload: bytes, frame: Frame)

  function Size(width: nat, n: nat): bytes {
    if width == 2 then PutUint16(n) else if width == 4 then PutUint32(n) else []
  }

  function Wrap(f: Frame, x: bytes): bytes {
    f.head + Size(f.width, |x|) + x + f.tail
  }

  /** The payload of `len` bytes whose length field of `width` bytes is at `at`, if it is all there and parses. */
  function Take(b: bytes, at: nat, width: nat, len: nat): Unwrapped
    requires at + width <= |b|
  {
    var start := at + width;
    if len > |b| - start || Parse(b[start..start + len], 0).Err? then NotThis
    else Payload(b[start..start + len], Frame(b[..at], width, b[start + len..]))
  }

  // ---- fixed prefix ----

  predicate LooksLikeFixedPrefix(p: bytes) {
    |p| == 8 && p[0] == 0 && p[1] == 1 && p[2] == 0 && p[3] == 0 && p[4] == 0 && p[6] == 0 && p[7] == 0
  }

  function UnwrapFixed(b: bytes): Unwrapped {
    if |b| < 10 || !LooksLikeFixedPrefix(b[..8]) then NotThis
    else Take(b, 8, 2, Uint16(b, 8))
  }

  // ---- ARPC ----

  /** The offset after `j` length-prefixed strings that start at `i`. */
  function SkipStrings(b: bytes, i: nat, j: nat): (r: Option<nat>)
    decreases j
  {
    if j == 0 then Some(i)
    else if i + 2 > |b| then None
    else
      var l := Uint16(b, i);
      if l > |b| - (i + 2) then None else SkipStrings(b, i + 2 + l, j - 1)
  }

  function UnwrapArpc(b: bytes): Unwrapped {
    match SkipStrings(b, 2, 3)
    case None => NotThis
    case Some(i) => if i + 8 > |b| then NotThis else Take(b, i + 4, 4, Uint32(b, i + 4))
  }

  // ---- marker ----

  const MARKER: bytes := [0, 0, 0, 1, 0, 0]

  function MarkerAt(b: bytes, i: nat): Unwrapped {
    if i + 8 <= |b| && b[i..i + 6] == MARKER then Take(b, i + 6, 2, Uint16(b, i + 6)) else NotThis
  }

  /** Where a marker with a payload that parses starts below n. */
  function Markers(b: bytes, n: nat): seq<nat> {
    if n == 0 then [] else Markers(b, n - 1) + if MarkerAt(b, n - 1).Payload? then [n - 1] else []
  }

  function UnwrapMarker(b: bytes): Unwrapped {
    var at := Markers(b, |b|);
    if |at| == 0 then NotThis else if |at| == 1 then MarkerAt(b, at[0]) else TwoMarkers
  }

  function Unwrap(b: bytes, kind: Kind): Unwrapped {
    match kind
    case FixedPrefix => UnwrapFixed(b)
    case Arpc => UnwrapArpc(b)
    case Marker => UnwrapMarker(b)
    case Bare => Take(b, 0, 0, |b|)
  }

  // ---- the loops ----

  method TakeParsed(b: bytes, at: nat, width: nat, len: nat) returns (r: Unwrapped)
    requires at + width <= |b|
    ensures r == Take(b, at, width, len)
  {
    var start := at + width;
    if len > |b| - start { return NotThis; }
    var parsed := ParseLoop(b[start..start + len], 0);
    if parsed.Err? { return NotThis; }
    return Payload(b[start..start + len], Frame(b[..at], width, b[start + len..]));
  }

  method UnwrapArpcLoop(b: bytes) returns (r: Unwrapped)
    ensures r == UnwrapArpc(b)
  {
    hide Take, Parse, Uint32;
    var i: nat := 2;
    for j := 0 to 3
      invariant SkipStrings(b, 2, 3) == SkipStrings(b, i, 3 - j)
      invariant j > 0 ==> i <= |b|
    {
      if |b| - i < 2 { return NotThis; }
      var l := Uint16(b, i);
      i := i + 2;
      if l > |b| - i { return NotThis; }
      i := i + l;
    }
    if |b| - i < 8 { return NotThis; }
    r := TakeParsed(b, i + 4, 4, Uint32(b, i + 4));
  }

  method UnwrapMarkerLoop(b: bytes) returns (r: Unwrapped)
    ensures r == UnwrapMarker(b)
  {
    hide Take, MarkerAt;
    var idx: int := -1;
    var found := NotThis;
    var i: nat := 0;
    while i + 8 <= |b|
      invariant i <= |b|
      invariant Markers(b, i) == if idx < 0 then [] else [idx]
      invariant idx >= 0 ==> found.Payload? && found == MarkerAt(b, idx)
    {
      MarkerHere(b, i);
      if b[i..i + 6] == MARKER {
        var here := TakeParsed(b, i + 6, 2, Uint16(b, i + 6));
        if here.Payload? {
          if idx >= 0 {
            MarkersGrow(b, i + 1, |b|);
            return TwoMarkers;
          }
          idx, found := i, here;
        }
      }
      i := i + 1;
    }
    NoLateMarkers(b, i);
    return if idx < 0 then NotThis else found;
  }

  lemma MarkerHere(b: bytes, i: nat)
    requires i + 8 <= |b|
    ensures MarkerAt(b, i) == if b[i..i + 6] == MARKER then Take(b, i + 6, 2, Uint16(b, i + 6)) else NotThis
    ensures Take(b, i + 6, 2, Uint16(b, i + 6)) != TwoMarkers
  {
  }

  lemma {:induction false} MarkersGrow(b: bytes, n: nat, m: nat)
    requires n <= m
    ensures |Markers(b, n)| <= |Markers(b, m)|
  {
    if n < m { MarkersGrow(b, n, m - 1); }
  }

  lemma {:induction false} NoLateMarkers(b: bytes, i: nat)
    requires i <= |b| && i + 8 > |b|
    ensures Markers(b, i) == Markers(b, |b|)
    decreases |b| - i
  {
    if i < |b| {
      assert MarkerAt(b, i) == NotThis;
      NoLateMarkers(b, i + 1);
    }
  }

  method UnwrapAny(b: bytes, kind: Kind) returns (r: Unwrapped)
    ensures r == Unwrap(b, kind)
  {
    match kind {
      case FixedPrefix =>
        if |b| < 10 || !LooksLikeFixedPrefix(b[..8]) { return NotThis; }
        r := TakeParsed(b, 8, 2, Uint16(b, 8));
      case Arpc => r := UnwrapArpcLoop(b);
      case Marker => r := UnwrapMarkerLoop(b);
      case Bare => r := TakeParsed(b, 0, 0, |b|);
    }
  }

  // ---- the marker scan is a search for the one position ----

  /** Position i holds the marker, a length that fits and a payload that parses. */
  ghost predicate Valid(b: bytes, i: nat) {
    MarkerAt(b, i).Payload?
  }

  /** The positions below n, all of them, in ascending order. */
  ghost predicate ArePositions(b: bytes, n: nat, at: seq<nat>) {
    && (forall k | 0 <= k < |at| :: at[k] < n && Valid(b, at[k]))
    && (forall k, l | 0 <= k < l < |at| :: at[k] < at[l])
    && (forall i: nat | i < n && Valid(b, i) :: i in at)
  }

  lemma {:induction false} MarkersAre(b: bytes, n: nat)
    ensures ArePositions(b, n, Markers(b, n))
  {
    hide MarkerAt;
    if n > 0 {
      MarkersAre(b, n - 1);
      var before, at := Markers(b, n - 1), Markers(b, n);
      forall i: nat | i < n && Valid(b, i) ensures i in at {
        if i == n - 1 { assert at[|before|] == i; }
      }
    }
  }

  ghost predicate OnlyValid(b: bytes, i: nat) {
    Valid(b, i) && forall j: nat | Valid(b, j) :: j == i
  }

  ghost predicate TwoValid(b: bytes, i: nat, j: nat) {
    i < j && Valid(b, i) && Valid(b, j)
  }

  /** How many positions there are, and what that says about each. */
  lemma Positions(b: bytes, at: seq<nat>)
    requires ArePositions(b, |b|, at)
    ensures |at| == 1 <==> exists i: nat :: OnlyValid(b, i)
    ensures |at| == 1 ==> OnlyValid(b, at[0])
    ensures |at| >= 2 <==> exists i: nat, j: nat :: TwoValid(b, i, j)
  {
    forall i: nat | Valid(b, i) ensures i in at {
      ValidInside(b, i);
    }
    hide Valid;
    if |at| == 1 {
      assert OnlyValid(b, at[0]);
    } else if |at| >= 2 {
      assert TwoValid(b, at[0], at[1]);
    }
  }

  /** The scan succeeds exactly when one valid position exists, and is ambiguous exactly when two do. */
  lemma MarkerScan(b: bytes)
    ensures UnwrapMarker(b).Payload? <==> exists i: nat :: OnlyValid(b, i)
    ensures UnwrapMarker(b) == TwoMarkers <==> exists i: nat, j: nat :: TwoValid(b, i, j)
    ensures forall i: nat | Valid(b, i) && UnwrapMarker(b).Payload? :: UnwrapMarker(b) == MarkerAt(b, i)
  {
    hide Take, OnlyValid, TwoValid, ArePositions;
    MarkersAre(b, |b|);
    Positions(b, Markers(b, |b|));
    if |Markers(b, |b|)| == 1 { OnlyOne(b, Markers(b, |b|)[0]); }
  }

  lemma OnlyOne(b: bytes, i: nat)
    requires OnlyValid(b, i)
    ensures forall j: nat | Valid(b, j) :: j == i
    ensures MarkerAt(b, i) != TwoMarkers && MarkerAt(b, i).Payload?
  {
    hide Take;
  }

  lemma ValidInside(b: bytes, i: nat)
    requires Valid(b, i)
    ensures i < |b|
  {
    hide Take;
  }

  // ---- round trips ----

  /** Wrapping what was unwrapped gives the body back. */
  lemma Rewrap(b: bytes, kind: Kind)
    requires Unwrap(b, kind).Payload?
    ensures Wrap(Unwrap(b, kind).frame, Unwrap(b, kind).payload) == b
  {
    hide Parse, MarkerAt, Markers;
    match kind {
      case FixedPrefix =>
        TakeRewraps(b, 8, 2, Uint16(b, 8));
      case Arpc =>
        var i := SkipStrings(b, 2, 3).value;
        SizeOfUint32(b, i + 4);
        TakeRewraps(b, i + 4, 4, Uint32(b, i + 4));
      case Marker =>
        var i := Markers(b, |b|)[0];
        MarkersAre(b, |b|);
        MarkerRewraps(b, i);
      case Bare =>
        TakeRewraps(b, 0, 0, |b|);
    }
  }

  lemma MarkerRewraps(b: bytes, i: nat)
    requires Valid(b, i)
    ensures Wrap(MarkerAt(b, i).frame, MarkerAt(b, i).payload) == b
  {
    hide Parse;
    TakeRewraps(b, i + 6, 2, Uint16(b, i + 6));
  }

  lemma SizeOfUint16(b: bytes, i: nat)
    requires i + 2 <= |b|
    ensures PutUint16(Uint16(b, i)) == b[i..i + 2]
  {
  }

  lemma SizeOfUint32(b: bytes, i: nat)
    requires i + 4 <= |b|
    ensures PutUint32(Uint32(b, i)) == b[i..i + 4]
  {
    hide PutUint16, Uint16;
    var hi, lo := Uint16(b, i), Uint16(b, i + 2);
    assert (hi * TWO16 + lo) / TWO16 == hi;
    assert (hi * TWO16 + lo) % TWO16 == lo;
    Low16(hi * TWO16 + lo);
    SizeOfUint16(b, i);
    SizeOfUint16(b, i + 2);
  }

  lemma Low16(n: nat)
    ensures PutUint16(n) == PutUint16(n % TWO16)
  {
    var q := n / TWO16;
    var r := n % TWO16;
    assert n == q * TWO16 + r;
    assert n / 256 == q * 256 + r / 256;
    assert n % 256 == r % 256;
  }

  lemma TakeRewraps(b: bytes, at: nat, width: nat, len: nat)
    requires at + width <= |b| && Take(b, at, width, len).Payload?
    requires Size(width, len) == b[at..at + width] || (width == 2 && len == Uint16(b, at))
    ensures Wrap(Take(b, at, width, len).frame, Take(b, at, width, len).payload) == b
  {
    hide Parse, PutUint16, PutUint32;
    if width == 2 && len == Uint16(b, at) {
      SizeOfUint16(b, at);
    }
    var start := at + width;
    CutInThree(b, at, start, start + len);
    assert b == b[..start + len] + b[start + len..];
  }

  /** Taking from a wrapped payload: everything before the length is as it was, and so is the tail. */
  lemma TakeWrapped(f: Frame, x: bytes)
    requires Parse(x, 0).Ok?
    requires |Size(f.width, |x|)| == f.width
    ensures |f.head| + f.width <= |Wrap(f, x)|
    ensures Take(Wrap(f, x), |f.head|, f.width, |x|) == Payload(x, f)
    ensures Wrap(f, x)[..|f.head|] == f.head
    ensures Wrap(f, x)[|f.head|..|f.head| + f.width] == Size(f.width, |x|)
  {
    hide Parse, Size;
    var w := Wrap(f, x);
    var start := |f.head| + f.width;
    assert w[start..start + |x|] == x;
    assert w[..|f.head|] == f.head;
    assert w[start + |x|..] == f.tail;
  }

  lemma FixedRoundTrip(b: bytes, x: bytes)
    requires Unwrap(b, FixedPrefix).Payload? && Parse(x, 0).Ok? && |x| < TWO16
    ensures var f := Unwrap(b, FixedPrefix).frame;
      Unwrap(Wrap(f, x), FixedPrefix) == Payload(x, f)
  {
    hide Parse, PutUint16;
    var f := Unwrap(b, FixedPrefix).frame;
    TakeWrapped(f, x);
    SizeAtHead(f, x);
  }

  /** The length field of a wrapped payload reads as the length. */
  lemma SizeAtHead(f: Frame, x: bytes)
    requires f.width == 2 && |x| < TWO16
    ensures |Wrap(f, x)| >= |f.head| + 2
    ensures Uint16(Wrap(f, x), |f.head|) == |x|
  {
    hide PutUint16;
    var s := PutUint16(|x|);
    assert Wrap(f, x)[|f.head|] == s[0] && Wrap(f, x)[|f.head| + 1] == s[1];
  }

  lemma {:induction false} SkipStringsLocal(b: bytes, c: bytes, i: nat, j: nat, n: nat)
    requires SkipStrings(b, i, j).Some? && SkipStrings(b, i, j).value <= n <= |b| && n <= |c| && b[..n] == c[..n]
    ensures i <= SkipStrings(b, i, j).value && SkipStrings(c, i, j) == SkipStrings(b, i, j)
    decreases j
  {
    
    if j > 0 {
      var l := Uint16(b, i);
      SkipStringsMonotone(b, i + 2 + l, j - 1);
      assert b[..n][i] == c[..n][i] && b[..n][i + 1] == c[..n][i + 1];
      SkipStringsLocal(b, c, i + 2 + l, j - 1, n);
    }
  }

  lemma {:induction false} SkipStringsMonotone(b: bytes, i: nat, j: nat)
    requires SkipStrings(b, i, j).Some?
    ensures i <= SkipStrings(b, i, j).value
    decreases j
  {
    
    if j > 0 { SkipStringsMonotone(b, i + 2 + Uint16(b, i), j - 1); }
  }

  lemma ArpcRoundTrip(b: bytes, x: bytes)
    requires Unwrap(b, Arpc).Payload? && Parse(x, 0).Ok? && |x| < TWO32
    ensures var f := Unwrap(b, Arpc).frame;
      Unwrap(Wrap(f, x), Arpc) == Payload(x, f)
  {
    hide Parse, PutUint32, Uint32;
    var f := Unwrap(b, Arpc).frame;
    var i := SkipStrings(b, 2, 3).value;
    var w := Wrap(f, x);
    TakeWrapped(f, x);
    assert w[..i + 4] == b[..i + 4];
    SkipStringsLocal(b, w, 2, 3, i + 4);
    assert w[i + 4..i + 8] == PutUint32(|x|) == PutUint32(|x|)[0..4];
    SameUint32(w, i + 4, PutUint32(|x|), 0);
  }

  /** The marker scan of a wrapped payload finds the payload, unless the new bytes brought a second marker. */
  lemma MarkerRoundTrip(b: bytes, x: bytes)
    requires Unwrap(b, Marker).Payload? && Parse(x, 0).Ok? && |x| < TWO16
    ensures var f := Unwrap(b, Marker).frame;
      Unwrap(Wrap(f, x), Marker) in {Payload(x, f), TwoMarkers}
  {
    hide Parse, PutUint16, Markers, Take;
    var i := Markers(b, |b|)[0];
    MarkersAre(b, |b|);
    MarkerFrame(b, i);
    var f := Unwrap(b, Marker).frame;
    var w := Wrap(f, x);
    TakeWrapped(f, x);
    SizeAtHead(f, x);
    assert w[i..i + 6] == w[..i + 6][i..] == b[..i + 6][i..] == b[i..i + 6];
    assert MarkerAt(w, i) == Payload(x, f);
    assert Valid(w, i);
    MarkerScan(w);
    MarkersAre(w, |w|);
    assert i in Markers(w, |w|);
  }

  lemma MarkerFrame(b: bytes, i: nat)
    requires Valid(b, i)
    ensures i + 8 <= |b| && b[i..i + 6] == MARKER
    ensures var f := MarkerAt(b, i).frame;
      f.head == b[..i + 6] && f.width == 2
  {
    hide Parse;
  }

  lemma BareRoundTrip(x: bytes)
    requires Parse(x, 0).Ok?
    ensures Unwrap(Wrap(Frame([], 0, []), x), Bare) == Payload(x, Frame([], 0, []))
  {
    hide Parse;
    TakeWrapped(Frame([], 0, []), x);
    assert Wrap(Frame([], 0, []), x) == x;
  }

  // ---- the layouts, field by field ----

  /** A string with its two-byte length. */
  function Counted(s: bytes): bytes {
    PutUint16(|s|) + s
  }

  function Head(version: bytes, a: bytes, b: bytes, c: bytes, four: bytes): bytes {
    version + Counted(a) + Counted(b) + Counted(c) + four
  }

  lemma {:induction false} SkipsOne(b: bytes, s: bytes, i: nat, j: nat)
    requires |s| < TWO16 && i + 2 + |s| <= |b| && b[i..i + 2 + |s|] == Counted(s)
    ensures SkipStrings(b, i, j + 1) == SkipStrings(b, i + 2 + |s|, j)
  {
    hide PutUint16, Uint16;
    assert b[i..i + 2] == b[i..i + 2 + |s|][..2] == PutUint16(|s|)[0..2];
    SameUint16(b, i, PutUint16(|s|), 0);
  }

  /** Where the five parts of a header stand, whatever comes after it. */
  lemma HeadParts(version: bytes, a: bytes, b: bytes, c: bytes, four: bytes, rest: bytes)
    requires |version| == 2
    ensures var w := Head(version, a, b, c, four) + rest;
      var i := 4 + |a|;
      var j := i + 2 + |b|;
      var k := j + 2 + |c|;
      && |Head(version, a, b, c, four)| == k + |four|
      && w[2..i] == Counted(a) && w[i..j] == Counted(b) && w[j..k] == Counted(c)
  {
    hide PutUint16;
    var w := Head(version, a, b, c, four) + rest;
    assert w == version + Counted(a) + (Counted(b) + Counted(c) + four + rest);
    assert w == version + Counted(a) + Counted(b) + (Counted(c) + four + rest);
    assert w == version + Counted(a) + Counted(b) + Counted(c) + (four + rest);
    Middle(version, Counted(a), Counted(b) + Counted(c) + four + rest);
    Middle(version + Counted(a), Counted(b), Counted(c) + four + rest);
    Middle(version + Counted(a) + Counted(b), Counted(c), four + rest);
  }

  /** The three strings of an ARPC header are skipped. */
  lemma SkipsThree(version: bytes, a: bytes, b: bytes, c: bytes, four: bytes, rest: bytes)
    requires |version| == 2 && |a| < TWO16 && |b| < TWO16 && |c| < TWO16
    ensures SkipStrings(Head(version, a, b, c, four) + rest, 2, 3) == Some(8 + |a| + |b| + |c|)
  {
    hide PutUint16, Uint16, SkipStrings, Head;
    var w := Head(version, a, b, c, four) + rest;
    HeadParts(version, a, b, c, four, rest);
    SkipsOne(w, a, 2, 2);
    SkipsOne(w, b, 4 + |a|, 1);
    SkipsOne(w, c, 6 + |a| + |b|, 0);
    SkipsNothing(w, 8 + |a| + |b| + |c|);
  }

  lemma SkipsNothing(b: bytes, i: nat)
    ensures SkipStrings(b, i, 0) == Some(i)
  {
  }

  /**
   * An ARPC body: version, three strings, four bytes, a 32-bit length, the payload, and what follows it. However
   * they are chosen, the payload is what is unwrapped.
   */
  lemma ArpcPrinted(version: bytes, a: bytes, b: bytes, c: bytes, four: bytes, x: bytes, tail: bytes)
    requires |version| == 2 && |four| == 4 && |x| < TWO32 && Parse(x, 0).Ok?
    requires |a| < TWO16 && |b| < TWO16 && |c| < TWO16
    ensures var head := version + Counted(a) + Counted(b) + Counted(c) + four;
      Unwrap(head + PutUint32(|x|) + x + tail, Arpc) == Payload(x, Frame(head, 4, tail))
  {
    hide Parse, PutUint16, PutUint32, Uint32, SkipStrings, Take;
    var head := Head(version, a, b, c, four);
    var rest := PutUint32(|x|) + x + tail;
    var f := Frame(head, 4, tail);
    var w := Wrap(f, x);
    assert w == head + rest;
    SkipsThree(version, a, b, c, four, rest);
    HeadParts(version, a, b, c, four, rest);
    TakeWrapped(f, x);
    assert w[|head|..|head| + 4] == PutUint32(|x|) == PutUint32(|x|)[0..4];
    SameUint32(w, |head|, PutUint32(|x|), 0);
  }

  lemma SkippedOne(b: bytes, i: nat, j: nat)
    requires SkipStrings(b, i, j + 1).Some?
    ensures i + 2 + Uint16At(b, i) <= |b| && SkipStrings(b, i, j + 1) == SkipStrings(b, i + 2 + Uint16At(b, i), j)
  {
    hide Uint16;
  }

  /** Nothing else is taken for an ARPC body: the payload stands after three strings, four bytes and its length. */
  lemma ArpcOnly(b: bytes)
    requires UnwrapArpc(b).Payload?
    ensures Unwrap(b, Arpc) == UnwrapArpc(b)
    ensures var i := 4 + Uint16At(b, 2);
      var j := i + 2 + Uint16At(b, i);
      var k := j + 2 + Uint16At(b, j);
      && k + 8 <= |b| && k + 8 + Uint32(b, k + 4) <= |b|
      && UnwrapArpc(b).payload == b[k + 8..k + 8 + Uint32(b, k + 4)]
      && UnwrapArpc(b).frame.head == b[..k + 4]
  {
    hide Parse, Uint16, Uint32, SkipStrings, Uint16At;
    SkippedOne(b, 2, 2);
    SkippedOne(b, 4 + Uint16At(b, 2), 1);
    SkippedOne(b, 6 + Uint16At(b, 2) + Uint16At(b, 4 + Uint16At(b, 2)), 0);
    SkipsNothing(b, SkipStrings(b, 2, 3).value);
    SkipsNothing(b, 8 + Uint16At(b, 2) + Uint16At(b, 4 + Uint16At(b, 2))
                    + Uint16At(b, 6 + Uint16At(b, 2) + Uint16At(b, 4 + Uint16At(b, 2))));
  }

  /** A fixed-prefix body: eight bytes of which only the sixth is free, a 16-bit length, the payload, the rest. */
  lemma FixedPrinted(sixth: byte, x: bytes, tail: bytes)
    requires |x| < TWO16 && Parse(x, 0).Ok?
    ensures var head := [0, 1, 0, 0, 0, sixth, 0, 0];
      Unwrap(head + PutUint16(|x|) + x + tail, FixedPrefix) == Payload(x, Frame(head, 2, tail))
  {
    hide Parse, PutUint16, Uint16, Take;
    var f := Frame([0, 1, 0, 0, 0, sixth, 0, 0], 2, tail);
    assert Wrap(f, x) == f.head + PutUint16(|x|) + x + tail;
    TakeWrapped(f, x);
    SizeAtHead(f, x);
  }

  /** Nothing else is taken for a fixed prefix. */
  lemma FixedOnly(b: bytes)
    requires Unwrap(b, FixedPrefix).Payload?
    ensures |b| >= 10 && b[..8] == [0, 1, 0, 0, 0, b[5], 0, 0] && Unwrap(b, FixedPrefix).frame.head == b[..8]
  {
    hide Parse;
  }

  /**
   * A marker body: anything, six bytes, a 16-bit length, the payload, the rest. The payload is unwrapped, unless
   * another valid marker makes the body ambiguous.
   */
  lemma MarkerPrinted(before: bytes, x: bytes, tail: bytes)
    requires |x| < TWO16 && Parse(x, 0).Ok?
    ensures var b := before + [0, 0, 0, 1, 0, 0] + PutUint16(|x|) + x + tail;
      Valid(b, |before|) &&
      Unwrap(b, Marker) ==
        if exists i: nat :: i != |before| && Valid(b, i) then TwoMarkers
        else Payload(x, Frame(before + [0, 0, 0, 1, 0, 0], 2, tail))
  {
    hide Parse, PutUint16, Uint16, Take, UnwrapMarker, Wrap;
    var f := Frame(before + [0, 0, 0, 1, 0, 0], 2, tail);
    var b := Wrap(f, x);
    WrapIs(f, x);
    TakeWrapped(f, x);
    SizeAtHead(f, x);
    var i := |before|;
    assert b[i..i + 6] == b[..i + 6][i..] == [0, 0, 0, 1, 0, 0];
    assert MarkerAt(b, i) == Payload(x, f);
    MarkerScan(b);
    if j: nat :| j != i && Valid(b, j) {
      assert TwoValid(b, if i < j then i else j, if i < j then j else i);
    } else {
      assert OnlyValid(b, i);
    }
  }

  lemma WrapIs(f: Frame, x: bytes)
    requires f.width == 2
    ensures Wrap(f, x) == f.head + PutUint16(|x|) + x + f.tail
  {
  }

  /** What stands at a valid position. */
  lemma MarkerOnly(b: bytes, i: nat)
    requires Valid(b, i)
    ensures i + 8 <= |b| && b[i..i + 6] == [0, 0, 0, 1, 0, 0]
    ensures var n := Uint16(b, i + 6);
      i + 8 + n <= |b| && MarkerAt(b, i).payload == b[i + 8..i + 8 + n] && Parse(b[i + 8..i + 8 + n], 0).Ok?
  {
    hide Parse;
  }
}
