/** `parseSNI` of internal/proxy/classifier.go, and a printer of the messages it reads (RFC 8446, RFC 6066). */
module ClientHello {
  import opened Bytes

  // ---- the parser ----

  /** A first TLS record of type handshake is all there. */
  predicate Complete(b: bytes) {
    |b| >= 5 && b[0] == 22 && 5 + Uint16(b, 3) <= |b|
  }

  function RecordSize(b: bytes): nat
    requires |b| >= 5
  {
    5 + Uint16(b, 3)
  }

  /** The host name in the data of a server_name extension of at least five bytes. */
  function NameIn(d: bytes): Option<bytes>
    requires |d| >= 5
  {
    var outer := Uint16(d, 0);
    var historical := outer != |d| - 2;
    var q := if historical then 4 else 2;
    var listLen := if historical then Uint16(d, 2) else outer;
    if listLen > |d| - 2 || listLen < 3 || q + listLen > |d| then None
    else if d[q] != 0 then None
    else
      var nameLen := Uint16(d, q + 1);
      if nameLen == 0 || nameLen > listLen - 3 then None
      else Some(d[q + 3..q + 3 + nameLen])
  }

  /** The name in the first server_name extension of an extension block. */
  function Find(exts: bytes): Option<bytes> {
    if |exts| < 4 then None
    else
      var length := Uint16(exts, 2);
      if 4 + length > |exts| then None
      else if Uint16(exts, 0) == 0 && length >= 5 then NameIn(exts[4..4 + length])
      else Find(exts[4 + length..])
  }

  /** The offset after the field of `width` length bytes at p, when one more item of `next` bytes fits after it. */
  function SkipField(body: bytes, p: nat, width: nat, next: nat): Option<nat>
    requires 1 <= width <= 2 && p + width <= |body|
  {
    var len := if width == 1 then body[p] as nat else Uint16(body, p);
    var q := p + width + len;
    if q + next > |body| then None else Some(q)
  }

  function Extensions(body: bytes): Option<bytes> {
    if 35 > |body| then None
    else
      match SkipField(body, 34, 1, 2)
      case None => None
      case Some(p) =>
        match SkipField(body, p, 2, 1)
        case None => None
        case Some(q) =>
          match SkipField(body, q, 1, 2)
          case None => None
          case Some(r) => if r + 2 + Uint16(body, r) > |body| then None else Some(body[r + 2..r + 2 + Uint16(body, r)])
  }

  function Body(b: bytes): Option<bytes> {
    if !Complete(b) || Uint16(b, 3) < 4 then None
    else
      var h := b[5..RecordSize(b)];
      if h[0] != 1 || h[1] as nat * 65536 + h[2] as nat * 256 + h[3] as nat != |h| - 4 then None
      else Some(h[4..])
  }

  function ParseSNI(b: bytes): Option<bytes> {
    match Body(b)
    case None => None
    case Some(body) =>
      match Extensions(body)
      case None => None
      case Some(exts) => Find(exts)
  }

  /** parseSNI with its cursors p and q as written. */
  method ParseSNILoop(b: bytes) returns (r: Option<bytes>)
    ensures r == ParseSNI(b)
  {
    if |b| < 5 || b[0] != 22 { return None; }
    var recordLen := Uint16(b, 3);
    if recordLen < 4 || recordLen + 5 > |b| { return None; }
    var handshake := b[5..5 + recordLen];
    if |handshake| < 4 || handshake[0] != 1 { return None; }
    var helloLen := handshake[1] as nat * 65536 + handshake[2] as nat * 256 + handshake[3] as nat;
    if helloLen != |handshake| - 4 { return None; }
    var body := handshake[4..];
    r := ParseBody(body);
  }

  method ParseBody(body: bytes) returns (r: Option<bytes>)
    ensures r == match Extensions(body) case None => None case Some(exts) => Find(exts)
  {
    hide Find;
    var p: nat := 0;
    if p + 2 + 32 + 1 > |body| { return None; }
    p := p + 2 + 32;
    var sessionLen := body[p] as nat;
    p := p + 1;
    if p + sessionLen + 2 > |body| { return None; }
    p := p + sessionLen;
    var cipherLen := Uint16(body, p);
    p := p + 2;
    if p + cipherLen + 1 > |body| { return None; }
    p := p + cipherLen;
    var compressionLen := body[p] as nat;
    p := p + 1;
    if p + compressionLen + 2 > |body| { return None; }
    p := p + compressionLen;
    var extLen := Uint16(body, p);
    p := p + 2;
    var end := p + extLen;
    if end > |body| { return None; }
    assert Extensions(body) == Some(body[p..end]);
    r := FindLoop(body, p, end);
  }

  /** One turn of the search, from cursor p on. */
  lemma FindTurn(body: bytes, p: nat, end: nat)
    requires p <= end <= |body|
    ensures p + 4 > end ==> Find(body[p..end]) == None
    ensures p + 4 <= end ==>
      var typ, length := Uint16(body, p), Uint16(body, p + 2);
      Find(body[p..end]) ==
      if p + 4 + length > end then None
      else if typ == 0 && length >= 5 then NameIn(body[p + 4..p + 4 + length])
      else Find(body[p + 4 + length..end])
  {
    hide NameIn;
    if p + 4 <= end {
      var exts, length := body[p..end], Uint16(body, p + 2);
      assert exts[0] == body[p] && exts[1] == body[p + 1] && exts[2] == body[p + 2] && exts[3] == body[p + 3];
      if p + 4 + length <= end {
        SliceOfSlice(body, p, end, 4, 4 + length);
        SliceOfSlice(body, p, end, 4 + length, end - p);
        assert exts[4 + length..] == exts[4 + length..|exts|];
      }
    }
  }

  method FindLoop(body: bytes, start: nat, end: nat) returns (r: Option<bytes>)
    requires start <= end <= |body|
    ensures r == Find(body[start..end])
  {
    hide NameIn, Find;
    var p := start;
    while p + 4 <= end
      invariant start <= p <= end
      invariant Find(body[start..end]) == Find(body[p..end])
      decreases end - p
    {
      FindTurn(body, p, end);
      var typ := Uint16(body, p);
      var length := Uint16(body, p + 2);
      p := p + 4;
      if p + length > end { return None; }
      if typ == 0 && length >= 5 {
        r := NameLoop(body, p, length);
        return;
      }
      p := p + length;
    }
    FindTurn(body, p, end);
    return None;
  }

  method NameLoop(body: bytes, p: nat, length: nat) returns (r: Option<bytes>)
    requires 5 <= length && p + length <= |body|
    ensures r == NameIn(body[p..p + length])
  {
    ghost var d := body[p..p + length];
    var q := p;
    var outerLen := Uint16(body, q);
    q := q + 2;
    var listLen := outerLen;
    if outerLen != length - 2 && q + 2 <= p + length {
      listLen := Uint16(body, q);
      q := q + 2;
    }
    if listLen > length - 2 || listLen < 3 || q + listLen > p + length { return None; }
    if body[q] != 0 || q + 3 > p + length { return None; }
    var nameLen := Uint16(body, q + 1);
    q := q + 3;
    if nameLen == 0 || nameLen > listLen - 3 || q + nameLen > p + length { return None; }
    SliceOfSlice(body, p, p + length, q - p, q - p + nameLen);
    return Some(body[q..q + nameLen]);
  }

  // ---- only the first record matters ----

  lemma OnlyFirstRecord(b: bytes, rest: bytes)
    requires Complete(b)
    ensures Complete(b + rest) && RecordSize(b + rest) == RecordSize(b)
    ensures ParseSNI(b + rest) == ParseSNI(b)
  {
    hide Extensions, Find;
    var c := b + rest;
    assert c[3] == b[3] && c[4] == b[4] && c[0] == b[0];
    assert c[5..RecordSize(b)] == b[5..RecordSize(b)];
  }

  lemma IncompleteHasNoName(b: bytes)
    requires !Complete(b)
    ensures ParseSNI(b) == None
  {
  }

  // ---- a printer ----

  datatype Extension = Extension(typ: nat, data: bytes)

  /** A ClientHello, section 4.1.2 of RFC 8446. */
  datatype Hello = Hello(version: bytes, random: bytes, session: bytes, ciphers: bytes, compression: bytes,
                         extensions: seq<Extension>)

  function PrintExtension(e: Extension): bytes {
    PutUint16(e.typ) + PutUint16(|e.data|) + e.data
  }

  function PrintExtensions(es: seq<Extension>): bytes {
    if es == [] then [] else PrintExtension(es[0]) + PrintExtensions(es[1..])
  }

  function PrintBody(h: Hello): bytes {
    h.version + h.random
    + ([(|h.session| % 256) as byte] + h.session)
    + (PutUint16(|h.ciphers|) + h.ciphers)
    + ([(|h.compression| % 256) as byte] + h.compression)
    + (PutUint16(|PrintExtensions(h.extensions)|) + PrintExtensions(h.extensions))
  }

  function PrintHandshake(body: bytes): bytes {
    [1, (|body| / 65536 % 256) as byte] + PutUint16(|body|) + body
  }

  /** One TLS record holding the whole message, section 5.1 of RFC 8446. */
  function PrintRecord(h: Hello): bytes {
    var handshake := PrintHandshake(PrintBody(h));
    [22, 3, 1] + PutUint16(|handshake|) + handshake
  }

  ghost predicate ValidExtension(e: Extension) {
    e.typ < TWO16 && |e.data| < TWO16
  }

  /** The sizes that the length fields can carry, the record's included. */
  ghost predicate ValidHello(h: Hello) {
    && |h.version| == 2 && |h.random| == 32
    && |h.session| < 256 && |h.ciphers| < TWO16 && |h.compression| < 256
    && (forall i | 0 <= i < |h.extensions| :: ValidExtension(h.extensions[i]))
    && |PrintExtensions(h.extensions)| < TWO16
    && |PrintBody(h)| + 4 < TWO16
  }

  /** A ServerNameList whose first entry is a host_name, section 3 of RFC 6066. */
  function NameList(name: bytes, more: bytes): bytes {
    [0] + PutUint16(|name|) + name + more
  }

  /** The extension data: the list with its length, after `prefix` in the historical layout. */
  function NameData(prefix: bytes, name: bytes, more: bytes): bytes {
    prefix + PutUint16(|NameList(name, more)|) + NameList(name, more)
  }

  /** The RFC layout has no prefix, the historical one any two bytes. */
  ghost predicate NamesHost(d: bytes, prefix: bytes, name: bytes, more: bytes) {
    d == NameData(prefix, name, more) && |d| < TWO16 && |name| > 0 && (prefix == [] || |prefix| == 2)
  }

  /** The historical prefix reads as the length of what follows it, as in the RFC layout. */
  predicate Shadowed(d: bytes, prefix: bytes) {
    |prefix| == 2 && Uint16(prefix, 0) == |d| - 2
  }

  // ---- parsing what was printed ----

  lemma NameRead(d: bytes, prefix: bytes, name: bytes, more: bytes)
    requires NamesHost(d, prefix, name, more) && !Shadowed(d, prefix)
    ensures |d| >= 5 && NameIn(d) == Some(name)
  {
    hide PutUint16, Uint16;
    var list := NameList(name, more);
    var size, nameSize := PutUint16(|list|), PutUint16(|name|);
    var p, q := |prefix|, |prefix| + 2;
    assert |list| == 3 + |name| + |more| && |d| == q + |list|;
    assert d[p..p + 2] == size[0..2];
    SameUint16(d, p, size, 0);
    assert d[q] == list[0] == 0 && d[q + 1..q + 3] == nameSize[0..2];
    SameUint16(d, q + 1, nameSize, 0);
    Middle(prefix + size + ([0] + nameSize), name, more);
    assert d == prefix + size + ([0] + nameSize) + name + more;
    if prefix != [] {
      assert d[0..2] == prefix[0..2];
      SameUint16(d, 0, prefix, 0);
    }
  }

  /** The list's own length is then taken for the type of its first entry and half of the name's length. */
  lemma ShadowedIsNotRead(d: bytes, prefix: bytes, name: bytes, more: bytes)
    requires NamesHost(d, prefix, name, more) && Shadowed(d, prefix)
    ensures |d| >= 5 && NameIn(d) == None
  {
    hide PutUint16, Uint16;
    var list := NameList(name, more);
    var size := PutUint16(|list|);
    assert |d| == 4 + |list| && |list| >= 4;
    assert d[0..2] == prefix[0..2] && d[2..4] == size[0..2] && d[4] == list[0] == 0;
    SameUint16(d, 0, prefix, 0);
    SameUint16(d, 2, size, 0);
    if d[2] == 0 { Shifted(d); }
  }

  /** Read one byte late, a number below 256 with a zero after it is 256 times as large. */
  lemma Shifted(d: bytes)
    requires |d| >= 5 && d[2] == 0 && d[4] == 0
    ensures Uint16(d, 3) == 256 * Uint16(d, 2)
  {
  }

  /** The name is read in either layout, but for the one prefix that makes the two look alike. */
  lemma NameReadExactly(d: bytes, prefix: bytes, name: bytes, more: bytes)
    requires NamesHost(d, prefix, name, more)
    ensures |d| >= 5 && NameIn(d) == if Shadowed(d, prefix) then None else Some(name)
  {
    hide NamesHost, NameIn;
    if Shadowed(d, prefix) { ShadowedIsNotRead(d, prefix, name, more); } else { NameRead(d, prefix, name, more); }
  }

  /** The first extension that the parser looks into. */
  predicate Candidate(e: Extension) {
    e.typ == 0 && |e.data| >= 5
  }

  function FirstCandidate(es: seq<Extension>): (r: Option<bytes>)
    ensures r.Some? ==> |r.value| >= 5
  {
    if es == [] then None else if Candidate(es[0]) then Some(es[0].data) else FirstCandidate(es[1..])
  }

  /** On a printed extension list the parser looks into exactly the first candidate. */
  lemma {:induction false} FindsFirst(es: seq<Extension>)
    requires forall i | 0 <= i < |es| :: ValidExtension(es[i])
    ensures Find(PrintExtensions(es)) == match FirstCandidate(es) case None => None case Some(d) => NameIn(d)
    decreases |es|
  {
    hide PutUint16, NameIn;
    if es != [] {
      FindsFirst(es[1..]);
      var e, rest := es[0], PrintExtensions(es[1..]);
      assert ValidExtension(e);
      FindPrinted(e, rest);
    }
  }

  lemma FindPrinted(e: Extension, rest: bytes)
    requires ValidExtension(e)
    ensures Find(PrintExtension(e) + rest) == if Candidate(e) then NameIn(e.data) else Find(rest)
  {
    hide PutUint16, NameIn;
    var b := PrintExtension(e) + rest;
    var typ, size := PutUint16(e.typ), PutUint16(|e.data|);
    assert b[0] == typ[0] && b[1] == typ[1] && b[2] == size[0] && b[3] == size[1];
    assert b[4..4 + |e.data|] == e.data;
    assert b[4 + |e.data|..] == rest;
  }

  /** A field of length bytes and contents, printed at p. */
  lemma FieldAt(body: bytes, p: nat, width: nat, size: bytes, x: bytes, next: nat)
    requires 1 <= width <= 2 && |size| == width
    requires width == 1 ==> size[0] as nat == |x|
    requires width == 2 ==> Uint16(size, 0) == |x|
    requires p + width + |x| + next <= |body|
    requires body[p..p + width + |x|] == size + x
    ensures SkipField(body, p, width, next) == Some(p + width + |x|)
  {
    
    assert body[p] == (size + x)[0];
    if width == 2 { assert body[p + 1] == (size + x)[1]; }
  }

  lemma FiveParts(a: bytes, b: bytes, c: bytes, d: bytes, e: bytes)
    ensures var s := a + b + c + d + e;
      && s[|a|..|a| + |b|] == b
      && s[|a| + |b|..|a| + |b| + |c|] == c
      && s[|a| + |b| + |c|..|a| + |b| + |c| + |d|] == d
      && s[|a| + |b| + |c| + |d|..] == e
  {
    Middle(a, b, c);
    Middle(a + b, c, d);
    Middle(a + b + c, d, e);
    SliceOfPrefix(a + b + c, d, |a|, |a| + |b|);
    SliceOfPrefix(a + b + c + d, e, |a|, |a| + |b|);
    SliceOfPrefix(a + b + c + d, e, |a| + |b|, |a| + |b| + |c|);
  }

  /** Where the four fields of a printed body stand. */
  lemma BodyParts(h: Hello)
    requires |h.version| == 2 && |h.random| == 32
    ensures var b, exts := PrintBody(h), PrintExtensions(h.extensions);
      var p := 35 + |h.session|;
      var q := p + 2 + |h.ciphers|;
      var r := q + 1 + |h.compression|;
      && |b| == r + 2 + |exts|
      && b[34..p] == [(|h.session| % 256) as byte] + h.session
      && b[p..q] == PutUint16(|h.ciphers|) + h.ciphers
      && b[q..r] == [(|h.compression| % 256) as byte] + h.compression
      && b[r..] == PutUint16(|exts|) + exts
  {
    hide PutUint16, PrintExtensions;
    var exts := PrintExtensions(h.extensions);
    FiveParts(h.version + h.random, [(|h.session| % 256) as byte] + h.session, PutUint16(|h.ciphers|) + h.ciphers,
              [(|h.compression| % 256) as byte] + h.compression, PutUint16(|exts|) + exts);
  }

  lemma ExtensionsPrinted(h: Hello)
    requires ValidHello(h)
    ensures Extensions(PrintBody(h)) == Some(PrintExtensions(h.extensions))
  {
    hide PutUint16, Uint16, PrintExtensions, SkipField, PrintBody;
    var body := PrintBody(h);
    var p := 35 + |h.session|;
    var q := p + 2 + |h.ciphers|;
    var r := q + 1 + |h.compression|;
    BodyParts(h);
    FieldAt(body, 34, 1, [(|h.session| % 256) as byte], h.session, 2);
    FieldAt(body, p, 2, PutUint16(|h.ciphers|), h.ciphers, 1);
    FieldAt(body, q, 1, [(|h.compression| % 256) as byte], h.compression, 2);
    BlockAt(body, r, PrintExtensions(h.extensions));
  }

  /** A block with its two-byte length, at the end of `body`. */
  lemma BlockAt(body: bytes, r: nat, x: bytes)
    requires r <= |body| && |x| < TWO16 && body[r..] == PutUint16(|x|) + x
    ensures r + 2 + |x| == |body| && Uint16(body, r) == |x| && body[r + 2..r + 2 + |x|] == x
  {
    hide PutUint16;
    var s := PutUint16(|x|);
    assert body[r..][0] == s[0] && body[r..][1] == s[1];
    LengthAt(body, r, |x|);
    DropOfDrop(body, r, 2);
    assert (s + x)[2..] == x;
  }

  lemma LengthAt(b: bytes, i: nat, n: nat)
    requires i + 2 <= |b| && n < TWO16 && b[i] == PutUint16(n)[0] && b[i + 1] == PutUint16(n)[1]
    ensures Uint16(b, i) == n
  {
    hide PutUint16;
  }

  lemma BodyPrinted(h: Hello, rest: bytes)
    requires ValidHello(h)
    ensures Body(PrintRecord(h) + rest) == Some(PrintBody(h))
    ensures Complete(PrintRecord(h)) && RecordSize(PrintRecord(h)) == |PrintRecord(h)|
  {
    hide PutUint16, PrintExtensions, PrintBody;
    var body := PrintBody(h);
    var handshake := PrintHandshake(body);
    var b := PrintRecord(h);
    var size, inner := PutUint16(|handshake|), PutUint16(|body|);
    assert b[3] == size[0] && b[4] == size[1];
    assert |handshake| == 4 + |body|;
    LengthAt(b, 3, |handshake|);
    var c := b + rest;
    assert c[3] == size[0] && c[4] == size[1] && c[0] == 22;
    LengthAt(c, 3, |handshake|);
    assert c[5..5 + |handshake|] == handshake;
    assert handshake[2] == inner[0] && handshake[3] == inner[1] && handshake[1] == 0;
    HandshakeLength(handshake, body);
    assert handshake[4..] == body;
  }

  lemma HandshakeLength(h: bytes, body: bytes)
    requires |h| >= 4 && |body| < TWO16 && h[1] == 0 && h[2] == PutUint16(|body|)[0] && h[3] == PutUint16(|body|)[1]
    ensures h[1] as nat * 65536 + h[2] as nat * 256 + h[3] as nat == |body|
  {
  }

  /** What the parser makes of any printed ClientHello, with any bytes after its record. */
  lemma ParsesPrinted(h: Hello, rest: bytes)
    requires ValidHello(h)
    ensures ParseSNI(PrintRecord(h) + rest) ==
      match FirstCandidate(h.extensions) case None => None case Some(d) => NameIn(d)
  {
    hide Body, Extensions, Find, PrintRecord, PrintBody, NameIn;
    BodyPrinted(h, rest);
    ExtensionsPrinted(h);
    FindsFirst(h.extensions);
  }

  lemma {:induction false} FirstOfType(es: seq<Extension>, k: nat)
    requires k < |es| && Candidate(es[k]) && forall i | 0 <= i < k :: es[i].typ != 0
    ensures FirstCandidate(es) == Some(es[k].data)
  {
    if k > 0 { FirstOfType(es[1..], k - 1); }
  }

  lemma {:induction false} NoneOfType(es: seq<Extension>)
    requires forall i | 0 <= i < |es| :: es[i].typ != 0
    ensures FirstCandidate(es) == None
  {
    if es != [] { NoneOfType(es[1..]); }
  }

  /**
   * The host name a client sends is the name that is read, in either layout, wherever its extension stands
   * and whatever follows the record, but for a historical prefix that equals the length after it; and without
   * a server_name extension no name is read.
   */
  lemma NameRoundTrip(h: Hello, k: nat, prefix: bytes, name: bytes, more: bytes, rest: bytes)
    requires ValidHello(h) && k <= |h.extensions|
    requires forall i | 0 <= i < k :: h.extensions[i].typ != 0
    requires k < |h.extensions| ==> h.extensions[k].typ == 0 && NamesHost(h.extensions[k].data, prefix, name, more)
    ensures ParseSNI(PrintRecord(h) + rest) ==
      if k < |h.extensions| && !Shadowed(h.extensions[k].data, prefix) then Some(name) else None
  {
    hide ParseSNI, PrintRecord, NameIn, NamesHost, Shadowed, PrintBody;
    ParsesPrinted(h, rest);
    if k < |h.extensions| {
      NameReadExactly(h.extensions[k].data, prefix, name, more);
      FirstOfType(h.extensions, k);
    } else {
      NoneOfType(h.extensions);
    }
  }

  /** The host "a" behind the prefix 0, 6. */
  lemma ShadowedExample()
    ensures var d := NameData([0, 6], [97], []);
      NamesHost(d, [0, 6], [97], []) && |d| == 8 && Shadowed(d, [0, 6]) && NameIn(d) == None
  {
    hide PutUint16;
    var d := NameData([0, 6], [97], []);
    assert |d| == 8;
    ShadowedIsNotRead(d, [0, 6], [97], []);
  }

  // ---- where a name that is read stands ----

  /** In a handshake record, the whole of a ClientHello message. */
  lemma BodyAt(b: bytes)
    requires Body(b).Some?
    ensures |b| >= 9 && b[0] == 22 && b[5] == 1
    ensures var n := b[6] as nat * 65536 + b[7] as nat * 256 + b[8] as nat;
      n + 4 == Uint16(b, 3) && 9 + n <= |b| && Body(b).value == b[9..9 + n]
  {
    hide Uint16;
  }

  /** After version and random, session, cipher suites and compression methods, behind a length of its own. */
  lemma ExtensionsAt(body: bytes)
    requires Extensions(body).Some?
    ensures |body| >= 37
    ensures var p := 35 + body[34] as nat;
      && p + 3 <= |body|
      && var q := p + 2 + Uint16(body, p);
      && q + 3 <= |body|
      && var r := q + 1 + body[q] as nat;
      r + 2 + Uint16At(body, r) <= |body| && Extensions(body).value == body[r + 2..r + 2 + Uint16At(body, r)]
  {
    hide Uint16;
  }

  /** In an extension of type 0. */
  lemma {:induction false} ExtensionAt(exts: bytes) returns (e: nat)
    requires Find(exts).Some?
    ensures e + 9 <= |exts| && Uint16(exts, e) == 0
    ensures var n := Uint16(exts, e + 2);
      5 <= n <= |exts| - (e + 4) && Find(exts) == NameIn(exts[e + 4..e + 4 + n])
    decreases |exts|
  {
    hide Uint16, NameIn;
    var n := Uint16(exts, 2);
    if Uint16(exts, 0) == 0 && n >= 5 { return 0; }
    var rest := exts[4 + n..];
    e := ExtensionAt(rest);
    var m := Uint16(rest, e + 2);
    assert rest[e..e + 2] == exts[4 + n + e..4 + n + e + 2];
    assert rest[e + 2..e + 4] == exts[4 + n + e + 2..4 + n + e + 4];
    SameUint16(rest, e, exts, 4 + n + e);
    SameUint16(rest, e + 2, exts, 4 + n + e + 2);
    assert rest[e + 4..e + 4 + m] == exts[4 + n + e + 4..4 + n + e + 4 + m];
    e := 4 + n + e;
  }

  /** As an entry of type host_name with its length, in the list behind one or two lengths. */
  lemma NameAt(d: bytes)
    requires |d| >= 5 && NameIn(d).Some?
    ensures var q := if Uint16(d, 0) == |d| - 2 then 2 else 4;
      && q + 3 < |d| && d[q] == 0 && q + 3 + Uint16(d, q + 1) <= |d| && 0 < Uint16(d, q + 1)
      && NameIn(d).value == d[q + 3..q + 3 + Uint16(d, q + 1)]
      && 3 + Uint16(d, q + 1) <= Uint16(d, q - 2) <= |d| - q
  {
    hide Uint16;
  }
}
