/**
 * The prefix reader of internal/proxy/transparent_server.go: `readAndClassify` decides on the
 * bytes of one ClientHello record, however they arrive, and no byte it has read is lost.
 */
module Sniff {
  import opened Bytes
  import opened ClientHello

  const MAX_CLIENT_HELLO: int := 65536
  const CHUNK: int := 2048

  datatype Decision = Passthrough | Mitm

  /** One result of conn.Read: the bytes, and whether an error came with them. */
  datatype Chunk = Chunk(data: bytes, err: bool)

  /** The port of the original destination and the names that policy admits once normalised. */
  datatype Policy = Policy(port: nat, admits: bytes -> bool)

  /** Classify under the policy that readAndClassify passes: every destination is allowed. */
  function Classify(hello: bytes, p: Policy): Decision {
    if p.port != 443 || |hello| > MAX_CLIENT_HELLO then Passthrough
    else
      match ParseSNI(hello)
      case None => Passthrough
      case Some(name) => if p.admits(name) then Mitm else Passthrough
  }

  /** What has been read, the decision, and what is still in the connection. */
  datatype Sniffed = Sniffed(buf: bytes, decision: Decision, left: seq<Chunk>)

  /** The decision taken after a read, if any. */
  function Verdict(buf: bytes, err: bool, p: Policy): Option<Decision> {
    if Classify(buf, p) == Mitm then Some(Mitm)
    else if Complete(buf) then Some(Passthrough)
    else if |buf| >= MAX_CLIENT_HELLO || err then Some(Passthrough)
    else if |buf| >= 5 && buf[0] != 22 then Some(Passthrough)
    else None
  }

  /** The read loop with `buf` read already. A connection with nothing left reports an error. */
  function Run(buf: bytes, chunks: seq<Chunk>, p: Policy): Sniffed
    decreases |chunks|
  {
    if |buf| >= MAX_CLIENT_HELLO then Sniffed(buf, Passthrough, chunks)
    else if chunks == [] then
      match Verdict(buf, true, p)
      case Some(d) => Sniffed(buf, d, [])
      case None => Sniffed(buf, Passthrough, [])
    else
      match Verdict(buf + chunks[0].data, chunks[0].err, p)
      case Some(d) => Sniffed(buf + chunks[0].data, d, chunks[1..])
      case None => Run(buf + chunks[0].data, chunks[1..], p)
  }

  method ReadAndClassify(chunks: seq<Chunk>, p: Policy) returns (r: Sniffed)
    ensures r == Run([], chunks, p)
  {
    hide ParseSNI;
    var buf: bytes, i: nat := [], 0;
    assert chunks[0..] == chunks;
    while |buf| < MAX_CLIENT_HELLO
      invariant i <= |chunks|
      invariant Run([], chunks, p) == Run(buf, chunks[i..], p)
      decreases |chunks| - i
    {
      var data: bytes, err, next: nat := [], true, i;
      if i < |chunks| {
        data, err, next := chunks[i].data, chunks[i].err, i + 1;
        assert chunks[i..][1..] == chunks[i + 1..];
      }
      assert buf + [] == buf;
      buf := buf + data;
      if Classify(buf, p) == Mitm {
        return Sniffed(buf, Mitm, chunks[next..]);
      }
      if |buf| >= 5 && buf[0] == 22 && Uint16(buf, 3) + 5 <= |buf| {
        return Sniffed(buf, Passthrough, chunks[next..]);
      }
      if |buf| >= MAX_CLIENT_HELLO || err {
        return Sniffed(buf, Passthrough, chunks[next..]);
      }
      if |buf| >= 5 && buf[0] != 22 {
        return Sniffed(buf, Passthrough, chunks[next..]);
      }
      i := next;
    }
    return Sniffed(buf, Passthrough, chunks[i..]);
  }

  // ---- no byte is lost ----

  function Stream(chunks: seq<Chunk>): bytes {
    if chunks == [] then [] else chunks[0].data + Stream(chunks[1..])
  }

  lemma {:induction false} NoByteLost(buf: bytes, chunks: seq<Chunk>, p: Policy)
    ensures var r := Run(buf, chunks, p);
      r.buf + Stream(r.left) == buf + Stream(chunks)
    decreases |chunks|
  {
    hide Verdict;
    if |buf| < MAX_CLIENT_HELLO && chunks != [] {
      Assoc(buf, chunks[0].data, Stream(chunks[1..]));
      NoByteLost(buf + chunks[0].data, chunks[1..], p);
    }
  }

  // ---- chunking does not matter ----

  /** Reads as a connection makes them: no more than a buffer at a time. */
  ghost predicate Sized(chunks: seq<Chunk>) {
    forall i | 0 <= i < |chunks| :: |chunks[i].data| <= CHUNK
  }

  /** The bytes up to the first error: the read deadline expires, say, and the client goes on later. */
  function Heard(chunks: seq<Chunk>): bytes {
    if chunks == [] then [] else chunks[0].data + if chunks[0].err then [] else Heard(chunks[1..])
  }

  lemma {:induction false} HeardFirst(chunks: seq<Chunk>)
    ensures Heard(chunks) <= Stream(chunks)
  {
    if chunks != [] { HeardFirst(chunks[1..]); }
  }

  /** The decision on the first record of a stream, if it is ever complete. */
  function Decide(stream: bytes, p: Policy): Decision {
    if Complete(stream) then Classify(stream[..RecordSize(stream)], p) else Passthrough
  }

  /** A record that is intercepted leaves room for one more read in the buffer, unless all there is fits into it. */
  ghost predicate RoomToRead(stream: bytes, p: Policy) {
    Decide(stream, p) == Mitm ==>
      RecordSize(stream) <= MAX_CLIENT_HELLO - (CHUNK - 1) || |stream| <= MAX_CLIENT_HELLO
  }

  /** Nothing has been decided on `buf` yet. */
  predicate Undecided(buf: bytes) {
    |buf| < MAX_CLIENT_HELLO && !Complete(buf) && (|buf| >= 5 ==> buf[0] == 22)
  }

  lemma ClassifyFirstRecord(buf: bytes, p: Policy)
    requires Complete(buf) && |buf| <= MAX_CLIENT_HELLO
    ensures Classify(buf, p) == Classify(buf[..RecordSize(buf)], p)
  {
    hide ParseSNI;
    var n := RecordSize(buf);
    assert Complete(buf[..n]) && RecordSize(buf[..n]) == n;
    OnlyFirstRecord(buf[..n], buf[n..]);
    assert buf[..n] + buf[n..] == buf;
  }

  lemma IncompletePasses(buf: bytes, p: Policy)
    requires !Complete(buf)
    ensures Classify(buf, p) == Passthrough
  {
    hide ParseSNI;
    IncompleteHasNoName(buf);
  }

  /** A stream that goes on from `buf` has the same first bytes. */
  lemma DecideExtends(buf: bytes, rest: bytes, p: Policy)
    ensures |buf| >= 5 && buf[0] != 22 ==> Decide(buf + rest, p) == Passthrough
    ensures Complete(buf) ==> Decide(buf + rest, p) == Decide(buf, p) && RecordSize(buf + rest) == RecordSize(buf)
    ensures |buf| >= MAX_CLIENT_HELLO && !Complete(buf) ==> Decide(buf + rest, p) == Passthrough
  {
    hide ParseSNI;
    var s := buf + rest;
    if |buf| >= 5 {
      assert s[0] == buf[0] && s[3] == buf[3] && s[4] == buf[4];
      if Complete(buf) { assert s[..RecordSize(buf)] == buf[..RecordSize(buf)]; }
    }
  }

  /** One turn: while nothing was decided and the record leaves room, the read decides as the stream does. */
  lemma TurnIsRight(buf: bytes, c: Chunk, rest: bytes, p: Policy)
    requires Undecided(buf) && |c.data| <= CHUNK && RoomToRead(buf + c.data + rest, p) && (c.err ==> rest == [])
    ensures var now := buf + c.data;
      match Verdict(now, c.err, p)
      case Some(d) => d == Decide(now + rest, p)
      case None => Undecided(now)
  {
    hide ParseSNI;
    var now := buf + c.data;
    DecideExtends(now, rest, p);
    if |buf| >= 5 { assert now[3] == buf[3] && now[4] == buf[4] && now[0] == buf[0]; }
    if Complete(now) {
      if |now| <= MAX_CLIENT_HELLO {
        ClassifyFirstRecord(now, p);
      }
    } else {
      IncompletePasses(now, p);
      if c.err { assert now + rest == now; }
    }
  }

  lemma {:induction false} ChunkingIrrelevantFrom(buf: bytes, chunks: seq<Chunk>, p: Policy)
    requires Undecided(buf) && Sized(chunks) && RoomToRead(buf + Heard(chunks), p)
    ensures Run(buf, chunks, p).decision == Decide(buf + Heard(chunks), p)
    decreases |chunks|
  {
    hide ParseSNI, Complete, Classify, RoomToRead;
    if chunks == [] {
      assert buf + [] == buf;
      TurnIsRight(buf, Chunk([], true), [], p);
      assert buf + [] + [] == buf;
    } else {
      var c, rest := chunks[0], if chunks[0].err then [] else Heard(chunks[1..]);
      Assoc(buf, c.data, rest);
      TurnIsRight(buf, c, rest, p);
      if Verdict(buf + c.data, c.err, p) == None {
        ChunkingIrrelevantFrom(buf + c.data, chunks[1..], p);
      }
    }
  }

  /** However the stream is cut, the decision is that on the first complete record of what comes before an error. */
  lemma ChunkingIrrelevant(chunks: seq<Chunk>, p: Policy)
    requires Sized(chunks) && RoomToRead(Heard(chunks), p)
    ensures Run([], chunks, p).decision == Decide(Heard(chunks), p)
  {
    hide ParseSNI, RoomToRead;
    assert [] + Heard(chunks) == Heard(chunks);
    ChunkingIrrelevantFrom([], chunks, p);
  }

  /** The first n reads. */
  function Read(chunks: seq<Chunk>, n: nat): bytes
    requires n <= |chunks|
  {
    Stream(chunks[..n])
  }

  lemma {:induction false} StopsFrom(buf: bytes, chunks: seq<Chunk>, p: Policy)
    requires Undecided(buf)
    ensures |Run(buf, chunks, p).left| <= |chunks|
    ensures forall n | 0 <= n < |chunks| - |Run(buf, chunks, p).left| ::
      Undecided(buf + Read(chunks, n)) && (n > 0 ==> !chunks[n - 1].err)
    decreases |chunks|
  {
    hide ParseSNI, Complete;
    assert buf + [] == buf;
    if chunks != [] && Verdict(buf + chunks[0].data, chunks[0].err, p) == None {
      var now, rest := buf + chunks[0].data, chunks[1..];
      StopsFrom(now, rest, p);
      forall n | 0 < n < |chunks| - |Run(buf, chunks, p).left|
        ensures Undecided(buf + Read(chunks, n)) && !chunks[n - 1].err
      {
        assert chunks[..n][1..] == rest[..n - 1];
        Assoc(buf, chunks[0].data, Read(rest, n - 1));
        if n > 1 { assert chunks[n - 1] == rest[n - 2]; }
      }
    }
  }

  /**
   * Nobody is kept waiting: there is another read only while the record is not complete, what there is of it begins
   * like a handshake, no read has failed, and fewer than 65536 bytes are there.
   */
  lemma StopsInTime(chunks: seq<Chunk>, p: Policy, n: nat)
    requires n < |chunks| - |Run([], chunks, p).left|
    ensures var b := Read(chunks, n);
      && |b| < 65536 && (|b| >= 5 ==> b[0] == 22 && |b| < 5 + Uint16(b, 3))
      && (n > 0 ==> !chunks[n - 1].err)
  {
    hide ParseSNI, Run, Uint16;
    StopsFrom([], chunks, p);
    assert [] + Read(chunks, n) == Read(chunks, n);
  }

  // ---- and when it does ----

  /** The bytes in reads of one byte each. */
  function Bytewise(s: bytes): (c: seq<Chunk>)
    ensures |c| == |s|
    ensures forall i | 0 <= i < |c| :: |c[i].data| == 1 && !c[i].err
  {
    if s == [] then [] else [Chunk([s[0]], false)] + Bytewise(s[1..])
  }

  lemma {:induction false} StreamAppend(a: seq<Chunk>, b: seq<Chunk>)
    ensures Stream(a + b) == Stream(a) + Stream(b)
  {
    if a == [] {
      assert a + b == b;
    } else {
      assert (a + b)[1..] == a[1..] + b;
      StreamAppend(a[1..], b);
    }
  }

  lemma {:induction false} StreamBytewise(s: bytes)
    ensures Stream(Bytewise(s)) == s
  {
    if s != [] {
      StreamBytewise(s[1..]);
      assert Bytewise(s)[1..] == Bytewise(s[1..]);
    }
  }

  /** As long as every prefix of what arrives is undecided, the loop goes on. */
  lemma {:induction false} GoesOn(buf: bytes, s: bytes, more: seq<Chunk>, p: Policy)
    requires forall n | 0 <= n <= |s| :: Undecided(buf + s[..n])
    ensures Run(buf, Bytewise(s) + more, p) == Run(buf + s, more, p)
    decreases |s|
  {
    hide ParseSNI, Complete;
    if s == [] {
      assert Bytewise(s) + more == more && buf + s == buf;
    } else {
      assert buf + s[..0] == buf && buf + s[..1] == buf + [s[0]];
      IncompletePasses(buf + [s[0]], p);
      assert (Bytewise(s) + more)[1..] == Bytewise(s[1..]) + more;
      forall n | 0 <= n <= |s| - 1 ensures Undecided(buf + [s[0]] + s[1..][..n]) {
        assert buf + [s[0]] + s[1..][..n] == buf + s[..n + 1];
      }
      GoesOn(buf + [s[0]], s[1..], more, p);
      assert buf + [s[0]] + s[1..] == buf + s;
    }
  }

  lemma PrefixesUndecided(s: bytes, m: nat)
    requires Complete(s) && m < RecordSize(s) && m < MAX_CLIENT_HELLO
    ensures forall n | 0 <= n <= m :: Undecided([] + s[..m][..n])
  {
    
    forall n | 0 <= n <= m ensures Undecided([] + s[..m][..n]) {
      assert [] + s[..m][..n] == s[..n];
    }
  }

  /** Where the read ends that starts at the last byte of a record of n bytes and takes all it can. */
  function ReadEnd(s: bytes, n: nat): (m: nat)
    requires 0 < n <= |s|
    ensures n <= m <= |s| && m <= n - 1 + CHUNK && (m == |s| || m == n - 1 + CHUNK)
  {
    if n - 1 + CHUNK < |s| then n - 1 + CHUNK else |s|
  }

  /** The least favourable cut: single bytes up to the last of the record, then a full read, then single bytes. */
  function Late(s: bytes, n: nat): seq<Chunk>
    requires 0 < n <= |s|
  {
    Bytewise(s[..n - 1]) + ([Chunk(s[n - 1..ReadEnd(s, n)], false)] + Bytewise(s[ReadEnd(s, n)..]))
  }

  /** Reads that all fit the buffer and bring no error. */
  ghost predicate Clean(c: seq<Chunk>) {
    forall i | 0 <= i < |c| :: |c[i].data| <= CHUNK && !c[i].err
  }

  lemma CleanAppend(a: seq<Chunk>, b: seq<Chunk>)
    requires Clean(a) && Clean(b)
    ensures Clean(a + b)
  {
  }

  lemma {:induction false} CleanIsHeard(c: seq<Chunk>)
    requires Clean(c)
    ensures Sized(c) && Heard(c) == Stream(c)
  {
    if c != [] { CleanIsHeard(c[1..]); }
  }

  lemma LateIsCut(s: bytes, n: nat)
    requires 0 < n <= |s|
    ensures Sized(Late(s, n)) && Heard(Late(s, n)) == s
  {
    hide Stream, Heard, Sized;
    var m := ReadEnd(s, n);
    var full, rest := [Chunk(s[n - 1..m], false)], Bytewise(s[m..]);
    CleanAppend(full, rest);
    CleanAppend(Bytewise(s[..n - 1]), full + rest);
    CleanIsHeard(Late(s, n));
    LateStream(s, n);
  }

  lemma LateStream(s: bytes, n: nat)
    requires 0 < n <= |s|
    ensures Stream(Late(s, n)) == s
  {
    hide Stream;
    var m := ReadEnd(s, n);
    var full, rest := [Chunk(s[n - 1..m], false)], Bytewise(s[m..]);
    StreamAppend(Bytewise(s[..n - 1]), full + rest);
    StreamAppend(full, rest);
    StreamBytewise(s[..n - 1]);
    StreamBytewise(s[m..]);
    StreamOfOne(full[0]);
    assert s[..n - 1] + (s[n - 1..m] + s[m..]) == s;
  }

  lemma StreamOfOne(c: Chunk)
    ensures Stream([c]) == c.data
  {
    assert [c][1..] == [];
  }

  /** In that cut the record is complete only in a buffer that is too long to be classified. */
  lemma LatePasses(s: bytes, p: Policy)
    requires Complete(s) && RecordSize(s) <= MAX_CLIENT_HELLO
    requires RecordSize(s) > MAX_CLIENT_HELLO - (CHUNK - 1) && |s| > MAX_CLIENT_HELLO
    ensures Run([], Late(s, RecordSize(s)), p).decision == Passthrough
  {
    hide ParseSNI, Bytewise, Run;
    var n := RecordSize(s);
    var m := ReadEnd(s, n);
    var before, full := s[..n - 1], [Chunk(s[n - 1..m], false)];
    PrefixesUndecided(s, n - 1);
    GoesOn([], before, full + Bytewise(s[m..]), p);
    assert [] + before == before && before + s[n - 1..m] == s[..m];
    TooLate(before, s[n - 1..m], Bytewise(s[m..]), p);
  }

  lemma TooLate(buf: bytes, data: bytes, more: seq<Chunk>, p: Policy)
    requires |buf| < MAX_CLIENT_HELLO < |buf + data| && Complete(buf + data)
    ensures Run(buf, [Chunk(data, false)] + more, p).decision == Passthrough
  {
    hide ParseSNI;
    assert ([Chunk(data, false)] + more)[0] == Chunk(data, false);
  }

  /**
   * Cutting is irrelevant for exactly those streams that leave room to read: a record that is intercepted has at most
   * 63489 bytes, or all there is at most 65536.
   */
  lemma ChunkingIrrelevantExactly(s: bytes, p: Policy)
    ensures (forall c: seq<Chunk> | Sized(c) && Heard(c) == s :: Run([], c, p).decision == Decide(s, p))
            <==> RoomToRead(s, p)
    ensures RoomToRead(s, p) <==> (Decide(s, p) == Mitm ==> RecordSize(s) <= 63489 || |s| <= 65536)
  {
    hide ParseSNI, Run, Sized, Heard;
    if RoomToRead(s, p) {
      forall c: seq<Chunk> | Sized(c) && Heard(c) == s ensures Run([], c, p).decision == Decide(s, p) {
        ChunkingIrrelevant(c, p);
      }
    } else {
      LateIsCut(s, RecordSize(s));
      LatePasses(s, p);
    }
  }

  // ---- who is intercepted ----

  /** A ClientHello as NameRoundTrip has it: its k-th extension is the first server_name extension, if any. */
  ghost predicate Names(h: Hello, k: nat, prefix: bytes, name: bytes, more: bytes) {
    && ValidHello(h) && k <= |h.extensions|
    && (forall i | 0 <= i < k :: h.extensions[i].typ != 0)
    && (k < |h.extensions| ==> h.extensions[k].typ == 0 && NamesHost(h.extensions[k].data, prefix, name, more))
  }

  /**
   * A ClientHello is intercepted if and only if it goes to port 443, fits 65536 bytes, says a host name that can be
   * read, and the policy admits that name; whatever follows it.
   */
  lemma InterceptsExactly(h: Hello, k: nat, prefix: bytes, name: bytes, more: bytes, rest: bytes, p: Policy)
    requires Names(h, k, prefix, name, more)
    ensures Complete(PrintRecord(h) + rest) && RecordSize(PrintRecord(h) + rest) == |PrintRecord(h)|
    ensures Decide(PrintRecord(h) + rest, p) == Mitm <==>
      && p.port == 443 && |PrintRecord(h)| <= 65536
      && k < |h.extensions| && !Shadowed(h.extensions[k].data, prefix) && p.admits(name)
  {
    hide ParseSNI, PrintRecord, ValidHello, NamesHost, Shadowed, Uint16;
    var r := PrintRecord(h);
    BodyPrinted(h, []);
    DecideExtends(r, rest, p);
    assert r[..|r|] == r && r + [] == r;
    NameRoundTrip(h, k, prefix, name, more, []);
  }

  /** So is the connection, however the bytes before an error are cut, if there is room to read. */
  lemma RunIntercepts(h: Hello, k: nat, prefix: bytes, name: bytes, more: bytes, chunks: seq<Chunk>, p: Policy)
    requires Names(h, k, prefix, name, more) && Sized(chunks) && PrintRecord(h) <= Heard(chunks)
    requires |PrintRecord(h)| <= 63489 || |Heard(chunks)| <= 65536
    ensures Run([], chunks, p).decision == Mitm <==>
      && p.port == 443
      && k < |h.extensions| && !Shadowed(h.extensions[k].data, prefix) && p.admits(name)
  {
    hide ParseSNI, PrintRecord, Names, Shadowed, Uint16, Run, Decide, Heard;
    var r, s := PrintRecord(h), Heard(chunks);
    assert r + s[|r|..] == s;
    InterceptsExactly(h, k, prefix, name, more, s[|r|..], p);
    ChunkingIrrelevant(chunks, p);
  }

  /** Nothing else is: what is intercepted is a complete handshake record to port 443 with an admitted name in it. */
  lemma OnlyAdmitted(s: bytes, p: Policy)
    requires Decide(s, p) == Mitm
    ensures p.port == 443 && |s| >= 5 && s[0] == 22 && RecordSize(s) <= |s| && RecordSize(s) <= 65536
    ensures ParseSNI(s).Some? && p.admits(ParseSNI(s).value)
  {
    hide ParseSNI;
    var n := RecordSize(s);
    assert Complete(s[..n]) && RecordSize(s[..n]) == n;
    OnlyFirstRecord(s[..n], s[n..]);
    assert s[..n] + s[n..] == s;
  }

  // ---- a stream for which it matters ----

  function Zeros(n: nat): bytes {
    seq(n, _ => 0)
  }

  /** A ClientHello for the host "a" with 63500 bytes of padding (extension 21 of RFC 7685). */
  function LongHello(): Hello {
    Hello([3, 3], Zeros(32), [], [], [], [Extension(0, NameData([], [97], [])), Extension(21, Zeros(63500))])
  }

  lemma LongHelloIsValid()
    ensures ValidHello(LongHello()) && |PrintBody(LongHello())| == 63554
  {
    hide PutUint16;
    var h := LongHello();
    var es := h.extensions;
    assert |es[0].data| == 6;
    assert es[1..] == [es[1]] && [es[1]][1..] == [];
    assert |PrintExtensions(es)| == 63514;
  }

  lemma LongRecord()
    ensures var r := PrintRecord(LongHello());
      Complete(r) && RecordSize(r) == |r| == 63563 && ParseSNI(r) == Some([97])
  {
    hide ParseSNI, PutUint16;
    var h := LongHello();
    LongHelloIsValid();
    BodyPrinted(h, []);
    var r := PrintRecord(h);
    assert r + [] == r;
    assert NamesHost(h.extensions[0].data, [], [97], []);
    NameRoundTrip(h, 0, [], [97], [], []);
    hide LongHello;
  }

  /** The long ClientHello and 2047 bytes after it: intercepted on its own, passed through in the late cut. */
  lemma ChunkingCanMatter()
    ensures var r := PrintRecord(LongHello());
      var s, p := r + Zeros(CHUNK - 1), Policy(443, _ => true);
      && |r| <= |s| && 0 < |r|
      && Decide(s, p) == Mitm && !RoomToRead(s, p)
      && Sized(Late(s, |r|)) && Heard(Late(s, |r|)) == s
      && Run([], Late(s, |r|), p).decision == Passthrough
  {
    hide ParseSNI, Run, Sized, Heard, LongHello, PrintRecord;
    var r := PrintRecord(LongHello());
    var s, p := r + Zeros(CHUNK - 1), Policy(443, _ => true);
    LongRecord();
    DecideExtends(r, Zeros(CHUNK - 1), p);
    assert r[..|r|] == r;
    LateIsCut(s, |r|);
    LatePasses(s, p);
  }

  // ---- the prefix goes on first ----

  /** prefixedConn: reads come from the prefix until it is used up, then from the connection. */
  class PrefixedConn {
    var prefix: bytes
    var chunks: seq<Chunk>

    ghost function Contents(): bytes
      reads this
    {
      prefix + Stream(chunks)
    }

    constructor (prefix: bytes, chunks: seq<Chunk>)
      ensures Contents() == prefix + Stream(chunks)
    {
      this.prefix, this.chunks := prefix, chunks;
    }

    /** One Read into a buffer of `size` bytes. */
    method Read(size: nat) returns (data: bytes, eof: bool)
      modifies this
      ensures data + Contents() == old(Contents())
      ensures |data| <= size
      ensures eof ==> data == [] && Contents() == []
    {
      eof := false;
      if prefix != [] {
        var n := if size < |prefix| then size else |prefix|;
        data, prefix := prefix[..n], prefix[n..];
        Assoc(data, prefix, Stream(chunks));
        assert data + prefix == old(prefix);
      } else if chunks == [] {
        data, eof := [], true;
      } else {
        var d := chunks[0].data;
        var n := if size < |d| then size else |d|;
        data := d[..n];
        if n == |d| {
          chunks := chunks[1..];
          assert data == d;
        } else {
          chunks := chunks[0 := chunks[0].(data := d[n..])];
          assert chunks[1..] == old(chunks)[1..] && data + d[n..] == d;
          Assoc(data, d[n..], Stream(chunks[1..]));
        }
      }
    }
  }
}
