/**
 * The bounded reads and writes of internal/proxy/mitm.go: readBounded over a reader that cuts its stream as it
 * likes, the copy of what is left, and the buffers of the gzip path.
 */
module BoundedRead {
  import opened Bytes

  const MAX_INT: int := TWO63 - 1

  datatype Ending = Eof | Error

  /** What a Read reports besides its bytes. */
  datatype Report = Nothing | Ended(ending: Ending)

  /** io.Reader over a stream: `rest` is what it will still deliver, `ending` how it ends. */
  class Reader {
    var rest: bytes
    const ending: Ending
    // how often it may still return no byte and no error
    var idle: nat

    constructor (stream: bytes, ending: Ending, idle: nat)
      ensures rest == stream && this.ending == ending && this.idle == idle
    {
      rest, this.ending, this.idle := stream, ending, idle;
    }

    /** Some of what is left, into buf from `at` on; the end may be reported with the last bytes or after them. */
    method Read(buf: array<byte>, at: nat) returns (n: nat, report: Report)
      requires at < buf.Length
      modifies `rest, `idle, buf
      ensures n <= |old(rest)| && n <= buf.Length - at
      ensures rest == old(rest)[n..]
      ensures buf[..at] == old(buf[..at]) && buf[at..at + n] == old(rest)[..n]
      ensures report.Ended? ==> rest == [] && report.ending == ending
      ensures n == 0 && report.Nothing? ==> idle < old(idle)
      ensures idle <= old(idle)
    {
      var most := if |rest| < buf.Length - at then |rest| else buf.Length - at;
      n :| 0 <= n <= most && (n == 0 && idle == 0 ==> most == 0);
      forall k | 0 <= k < n {
        buf[at + k] := rest[k];
      }
      assert buf[at..at + n] == rest[..n];
      rest := rest[n..];
      var early: bool := *;
      if rest == [] && (early || (n == 0 && idle == 0)) {
        report := Ended(ending);
      } else {
        report := Nothing;
        if n == 0 { idle := idle - 1; }
      }
    }
  }

  /** The buffer that readBounded makes: one byte over the limit, to tell a body that fits from a longer one. */
  function ReadBuffer(limit: int): int { limit + 1 }

  /** The capacity that gzipBounded gives its buffer, which its writes never exceed. */
  function GzipBuffer(limit: int): int { limit }

  /** readBounded's results: the whole body, a body over the limit with its first bytes, another error. */
  datatype Bounded = Whole(body: bytes) | TooLong(prefix: bytes) | Failed

  /**
   * For every way of cutting the stream: a stream that fits is returned whole, a longer one is read for one
   * byte beyond the limit and no further.
   */
  method ReadBounded(r: Reader, limit: int) returns (b: Bounded)
    modifies r`rest, r`idle
    ensures b.Whole? ==> b.body == old(r.rest) && |b.body| <= limit && r.rest == [] && r.ending.Eof?
    ensures b.TooLong? ==> 0 <= limit && |b.prefix| == limit + 1 && b.prefix + r.rest == old(r.rest)
    // with a usable limit and a reader that always makes progress, exactly one of the three, by length and ending
    ensures 0 <= limit < MAX_INT && old(r.idle) == 0 ==>
      && (b.TooLong? <==> |old(r.rest)| > limit)
      && (b.Whole? <==> |old(r.rest)| <= limit && r.ending.Eof?)
    ensures limit < 0 || limit >= MAX_INT ==> b.Failed?
    ensures b.Failed? ==> limit < 0 || limit >= MAX_INT || r.ending.Error? || r.idle < old(r.idle)
    ensures r.idle <= old(r.idle)
  {
    if limit < 0 || limit >= MAX_INT { return Failed; }
    var buf := new byte[ReadBuffer(limit)];
    var used := 0;
    ghost var stream := r.rest;
    while used < buf.Length
      invariant used <= buf.Length
      invariant used <= |stream| && buf[..used] == stream[..used] && r.rest == stream[used..]
      invariant used == buf.Length ==> false
      invariant r.idle <= old(r.idle)
      modifies r`rest, r`idle, buf
      decreases |r.rest|
    {
      ghost var before := r.rest;
      var n, report := r.Read(buf, used);
      assert buf[..used + n] == stream[..used + n] by {
        assert buf[..used + n] == buf[..used] + buf[used..used + n];
        assert stream[..used + n] == stream[..used] + before[..n];
      }
      if n > 0 {
        used := used + n;
        if used == buf.Length { return TooLong(buf[..used]); }
      }
      if report.Ended? {
        assert stream[..used] == stream;
        if report.ending.Eof? { return Whole(buf[..used]); }
        return Failed;
      }
      if n == 0 { return Failed; }
    }
    assert false;
  }

  // ---- the client's side ----

  /** http.ResponseWriter: what the client has been sent; a write may fail after part of it. */
  class Writer {
    var status: Option<nat>
    var sent: bytes

    constructor ()
      ensures status == None && sent == []
    {
      status, sent := None, [];
    }

    /** Only the first call has an effect. */
    method WriteHeader(code: nat)
      modifies `status
      ensures status == if old(status).None? then Some(code) else old(status)
    {
      if status.None? { status := Some(code); }
    }

    method Write(data: bytes) returns (n: nat, ok: bool)
      modifies `sent
      ensures n <= |data| && (ok ==> n == |data|)
      ensures sent == old(sent) + data[..n]
    {
      ok := *;
      n :| 0 <= n <= |data| && (ok ==> n == |data|);
      sent := sent + data[..n];
    }
  }

  const COPY_BUFFER := 32768

  /** io.Copy: everything that is left, unless a read or a write fails. */
  method Copy(w: Writer, r: Reader) returns (ok: bool)
    modifies w`sent, r`rest, r`idle
    ensures ok ==> w.sent == old(w.sent) + old(r.rest) && r.ending.Eof?
    ensures w.sent <= old(w.sent) + old(r.rest) && |old(w.sent)| <= |w.sent|
  {
    ghost var stream := r.rest;
    var buf := new byte[COPY_BUFFER];
    ghost var done := 0;
    while true
      invariant done <= |stream| && r.rest == stream[done..]
      invariant w.sent == old(w.sent) + stream[..done]
      modifies w`sent, r`rest, r`idle, buf
      decreases |r.rest| + r.idle
    {
      ghost var before := r.rest;
      var n, report := r.Read(buf, 0);
      if n > 0 {
        assert buf[..n] == buf[0..0 + n] == before[..n];
        var written, wrote := w.Write(buf[..n]);
        assert stream[..done + written] == stream[..done] + before[..written];
        Assoc(old(w.sent), stream[..done], before[..written]);
        done := done + written;
        if !wrote { return false; }
      }
      assert r.rest == stream[done..];
      if report.Ended? {
        assert stream[..done] == stream;
        return report.ending.Eof?;
      }
    }
  }

  // ---- gzip ----

  /** What a gzip reader makes of a body: no gzip at all, or a stream that ends well or in a checksum error. */
  datatype Unzipped = NotGzip | Stream(data: bytes, ending: Ending)

  /** The compressor as the sequence of its writes, and the decompressor. */
  datatype Codec = Codec(zip: bytes -> seq<bytes>, unzip: bytes -> Unzipped)

  function Flat(parts: seq<bytes>): bytes {
    if parts == [] then [] else parts[0] + Flat(parts[1..])
  }

  /** What is known of gzip: decompressing what was compressed gives it back. */
  ghost predicate Lossless(c: Codec) {
    forall x: bytes :: c.unzip(Flat(c.zip(x))) == Stream(x, Eof)
  }

  function GunzipBounded(c: Codec, body: bytes, limit: int): Option<bytes> {
    match c.unzip(body)
    case NotGzip => None
    case Stream(data, ending) => if ending.Eof? && |data| <= limit && 0 <= limit < MAX_INT then Some(data) else None
  }

  method GunzipBoundedBody(c: Codec, body: bytes, limit: int) returns (decoded: Option<bytes>)
    ensures decoded == GunzipBounded(c, body, limit)
  {
    var u := c.unzip(body);
    match u
    case NotGzip =>
      decoded := None;
    case Stream(data, ending) =>
      var r := new Reader(data, ending, 0);
      var b := ReadBounded(r, limit);
      decoded := if b.Whole? then Some(b.body) else None;
  }

  /** boundedBuffer: a write that would go over the limit is refused whole. */
  class BoundedBuffer {
    var buf: bytes
    const limit: int

    constructor (limit: int)
      requires 0 <= limit
      ensures buf == [] && this.limit == limit
    {
      buf, this.limit := [], limit;
    }

    method Write(p: bytes) returns (ok: bool)
      modifies this
      ensures ok <==> |old(buf)| + |p| <= limit
      ensures buf == if ok then old(buf) + p else old(buf)
      ensures |old(buf)| <= limit ==> |buf| <= limit
    {
      if |buf| + |p| > limit { return false; }
      buf := buf + p;
      ok := true;
    }
  }

  function GzipBounded(c: Codec, body: bytes, limit: int): Option<bytes> {
    if limit <= 0 || limit > MAX_INT || |body| > limit || |Flat(c.zip(body))| > limit then None
    else Some(Flat(c.zip(body)))
  }

  lemma {:induction false} FlatAppend(a: seq<bytes>, p: bytes)
    ensures Flat(a + [p]) == Flat(a) + p
  {
    if a == [] {
      assert [p][1..] == [] && a + [p] == [p] && Flat([p]) == p + [];
    } else {
      assert (a + [p])[1..] == a[1..] + [p];
      FlatAppend(a[1..], p);
      Assoc(a[0], Flat(a[1..]), p);
    }
  }

  lemma {:induction false} FlatGrows(a: seq<bytes>, n: nat)
    requires n <= |a|
    ensures |Flat(a[..n])| <= |Flat(a)|
  {
    if n > 0 {
      assert a[..n][1..] == a[1..][..n - 1];
      FlatGrows(a[1..], n - 1);
    }
  }

  /** The compressor writes into the bounded buffer and stops at the first refusal. */
  method GzipBoundedBody(c: Codec, body: bytes, limit: int) returns (encoded: Option<bytes>)
    ensures encoded == GzipBounded(c, body, limit)
  {
    if limit <= 0 || limit > MAX_INT || |body| > limit { return None; }
    var out := new BoundedBuffer(GzipBuffer(limit));
    var parts := c.zip(body);
    assert parts[..0] == [];
    for i := 0 to |parts|
      invariant out.buf == Flat(parts[..i]) && |out.buf| <= limit
      invariant fresh(out)
    {
      assert parts[..i + 1] == parts[..i] + [parts[i]];
      FlatAppend(parts[..i], parts[i]);
      FlatGrows(parts, i + 1);
      var ok := out.Write(parts[i]);
      if !ok { return None; }
    }
    assert parts[..|parts|] == parts;
    encoded := Some(out.buf);
  }

  /** What is sent compressed is read back as what was compressed, by the same bounded reader. */
  lemma GzipRoundTrip(c: Codec, x: bytes, limit: int)
    requires Lossless(c) && GzipBounded(c, x, limit).Some? && limit < MAX_INT
    ensures GunzipBounded(c, GzipBounded(c, x, limit).value, limit) == Some(x)
  {
  }
}
