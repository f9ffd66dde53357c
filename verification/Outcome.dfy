/**
 * What `handle` in internal/proxy/mitm.go does with one upstream response and which counters it moves, and what
 * the counters of internal/health/health.go add up to when requests run interleaved.
 */
module Outcome {
  import opened Bytes
  import opened BoundedRead

  datatype Encoding = Identity | Gzip | Unknown

  /** What the detailed callback returns: a body, or an error and whether the metadata calls it unsupported. */
  datatype Rewriting = Rewrote(out: bytes) | Refused(unsupported: bool)

  /** The callback that the server was given, if any. */
  datatype Callback =
    | Absent
    | Detailed(f: bytes -> Rewriting)
    | Simple(g: bytes -> Option<bytes>)

  /** The calls that `handle` makes on the observer, and Sent: a rewritten body has been written to its end. */
  datatype Record =
    | TargetRequest | Modified | PassedThrough
    | Unsupported | RewriteFailed | GzipDecodeFailed | GzipEncodeFailed
    | UpstreamFailed | Candidate | Sent

  // ---- what should become of a response ----

  /** The body under its encoding, as far as it can be read. */
  function Plain(e: Encoding, c: Codec, body: bytes, limit: int): Option<bytes> {
    match e
    case Identity => Some(body)
    case Gzip => GunzipBounded(c, body, limit)
    case Unknown => None
  }

  function Call(cb: Callback, plain: bytes): Rewriting
    requires !cb.Absent?
  {
    if cb.Detailed? then cb.f(plain)
    else match cb.g(plain) case Some(out) => Rewrote(out) case None => Refused(false)
  }

  /** A body put under an encoding again, if it is within the limit. */
  function Encoded(e: Encoding, c: Codec, out: bytes, limit: int): Option<bytes> {
    match e
    case Identity => if |out| <= limit then Some(out) else None
    case Gzip => GzipBounded(c, out, limit)
    case Unknown => None
  }

  /** What can be read of a body: all of it, or what gzip makes of it, within the limit. */
  lemma PlainMeans(e: Encoding, c: Codec, body: bytes, limit: int, x: bytes)
    ensures Plain(e, c, body, limit) == Some(x) <==>
      || (e.Identity? && x == body)
      || (e.Gzip? && c.unzip(body) == Stream(x, Eof) && |x| <= limit && 0 <= limit < 0x7fff_ffff_ffff_ffff)
  {
  }

  /** What can be sent of a result: the result, or what gzip makes of it, within the limit. */
  lemma EncodedMeans(e: Encoding, c: Codec, out: bytes, limit: int, sent: bytes)
    ensures Encoded(e, c, out, limit) == Some(sent) <==>
      || (e.Identity? && sent == out && |out| <= limit)
      || (e.Gzip? && sent == Flat(c.zip(out)) && |out| <= limit && |sent| <= limit
          && 0 < limit <= 0x7fff_ffff_ffff_ffff)
  {
  }

  datatype Verdict = Replaced(body: bytes) | Kept(why: Record)

  /**
   * Every bounded response with a callback is replaced, or kept for one reason: it cannot be read, the callback
   * refuses it or changes nothing, or the result does not fit.
   */
  function Judge(cb: Callback, e: Encoding, c: Codec, body: bytes, limit: int): Verdict
    requires !cb.Absent?
  {
    match Plain(e, c, body, limit)
    case None => Kept(if e.Gzip? then GzipDecodeFailed else Unsupported)
    case Some(plain) =>
      match Call(cb, plain)
      case Refused(unsupported) => Kept(if unsupported then Unsupported else RewriteFailed)
      case Rewrote(out) =>
        if out == plain then Kept(Unsupported)
        else
          match Encoded(e, c, out, limit)
          case None => Kept(if e.Gzip? then GzipEncodeFailed else RewriteFailed)
          case Some(sent) => Replaced(sent)
  }

  /** The callback's answer to a body: it gives another one, the same one, or none, for a reason or for another. */
  ghost predicate Gives(cb: Callback, x: bytes, out: bytes) {
    match cb case Absent => false case Detailed(f) => f(x) == Rewrote(out) case Simple(g) => g(x) == Some(out)
  }

  ghost predicate Declines(cb: Callback, x: bytes, unsupported: bool) {
    match cb
    case Absent => false
    case Detailed(f) => f(x) == Refused(unsupported)
    case Simple(g) => g(x) == None && !unsupported
  }

  /** The verdict on a body that can be read as x, for either kind of callback. */
  lemma JudgeMeans(cb: Callback, e: Encoding, c: Codec, body: bytes, limit: int, x: bytes, out: bytes)
    requires !cb.Absent? && Plain(e, c, body, limit) == Some(x)
    ensures Declines(cb, x, true) ==> Judge(cb, e, c, body, limit) == Kept(Unsupported)
    ensures Declines(cb, x, false) ==> Judge(cb, e, c, body, limit) == Kept(RewriteFailed)
    ensures Gives(cb, x, x) ==> Judge(cb, e, c, body, limit) == Kept(Unsupported)
    ensures Gives(cb, x, out) && out != x && Encoded(e, c, out, limit).Some? ==>
      Judge(cb, e, c, body, limit) == Replaced(Encoded(e, c, out, limit).value)
    ensures Gives(cb, x, out) && out != x && Encoded(e, c, out, limit).None? ==>
      Judge(cb, e, c, body, limit) == Kept(if e.Gzip? then GzipEncodeFailed else RewriteFailed)
  {
    hide GzipBounded, GunzipBounded;
  }

  /** The client of a replaced response reads, under the same encoding, what the callback made of the original. */
  lemma ReplacedIsRewritten(cb: Callback, e: Encoding, c: Codec, body: bytes, limit: int)
    requires !cb.Absent? && Lossless(c) && limit < MAX_INT && Judge(cb, e, c, body, limit).Replaced?
    ensures var was, now := Plain(e, c, body, limit), Plain(e, c, Judge(cb, e, c, body, limit).body, limit);
      was.Some? && now.Some? && Call(cb, was.value) == Rewrote(now.value) && now.value != was.value
    ensures |Judge(cb, e, c, body, limit).body| <= limit
  {
    var plain := Plain(e, c, body, limit).value;
    var out := Call(cb, plain).out;
    if e.Gzip? { GzipRoundTrip(c, out, limit); }
  }

  // ---- what the code does ----

  datatype Decision = Decision(body: bytes, rewritten: bool, gzipped: bool, candidate: bool, records: seq<Record>)

  /** The branch for a body without an encoding. */
  method DecideIdentity(cb: Callback, body: bytes, limit: int, ghost c: Codec) returns (d: Decision)
    requires !cb.Absent?
    ensures Follows(d, cb, Identity, c, body, limit)
  {
    d := Decision(body, false, false, false, []);
    match cb
    case Detailed(f) =>
      var answer := f(body);
      if answer.Rewrote? && |answer.out| <= limit && answer.out != body {
        d := Decision(answer.out, true, false, true, []);
      } else if answer.Refused? {
        d := d.(records := if answer.unsupported then [Unsupported] else [RewriteFailed]);
      } else if answer.out != body && |answer.out| > limit {
        d := d.(records := [RewriteFailed]);
      } else if answer.out == body {
        d := d.(records := [Unsupported]);
      }
    case Simple(g) =>
      var answer := g(body);
      if answer.Some? {
        if answer.value == body {
          d := d.(records := [Unsupported]);
        } else if |answer.value| > limit {
          d := d.(records := [RewriteFailed]);
        } else {
          d := Decision(answer.value, true, false, false, []);
        }
      } else {
        d := d.(records := [RewriteFailed]);
      }
  }

  /** The branch for a gzip body. */
  method DecideGzip(cb: Callback, body: bytes, limit: int, c: Codec) returns (d: Decision)
    requires !cb.Absent?
    ensures Follows(d, cb, Gzip, c, body, limit)
  {
    d := Decision(body, false, false, false, []);
    var decoded := GunzipBoundedBody(c, body, limit);
    if decoded == None {
      return d.(records := [GzipDecodeFailed]);
    }
    match cb
    case Detailed(f) =>
      var answer := f(decoded.value);
      if answer.Rewrote? && answer.out != decoded.value {
        var encoded := GzipBoundedBody(c, answer.out, limit);
        if encoded.Some? {
          d := Decision(encoded.value, true, true, true, []);
        } else {
          d := d.(records := [GzipEncodeFailed]);
        }
      } else if answer.Refused? {
        d := d.(records := if answer.unsupported then [Unsupported] else [RewriteFailed]);
      } else {
        d := d.(records := [Unsupported]);
      }
    case Simple(g) =>
      var answer := g(decoded.value);
      if answer.Some? {
        if answer.value == decoded.value {
          return d.(records := [Unsupported]);
        }
        var encoded := GzipBoundedBody(c, answer.value, limit);
        if encoded.Some? {
          d := Decision(encoded.value, true, true, false, []);
        } else {
          d := d.(records := [GzipEncodeFailed]);
        }
      } else {
        d := d.(records := [RewriteFailed]);
      }
  }

  /** The decision is the verdict; a response that is kept is kept byte for byte and has exactly one record. */
  ghost predicate Follows(d: Decision, cb: Callback, e: Encoding, c: Codec, body: bytes, limit: int)
    requires !cb.Absent?
  {
    match Judge(cb, e, c, body, limit)
    case Replaced(sent) =>
      d.rewritten && d.body == sent && d.records == [] && d.gzipped == e.Gzip? && d.candidate == cb.Detailed?
    case Kept(why) =>
      !d.rewritten && d.body == body && d.records == [why] && !d.gzipped && !d.candidate
  }

  method Decide(cb: Callback, e: Encoding, c: Codec, body: bytes, limit: int) returns (d: Decision)
    requires !cb.Absent?
    ensures Follows(d, cb, e, c, body, limit)
  {
    match e
    case Identity => d := DecideIdentity(cb, body, limit, c);
    case Gzip => d := DecideGzip(cb, body, limit, c);
    case Unknown => d := Decision(body, false, false, false, [Unsupported]);
  }

  /** A request as far as `handle` looks at it. */
  datatype Request = Request(sniAllowed: bool, wloc: bool, hostMatches: bool)

  datatype Upstream = Unreachable | Response(status: nat, reader: Reader, encoding: Encoding)

  /** The pages that `handle` answers with itself. */
  datatype Page = SniNotAllowed | HostMismatch | UpstreamUnavailable | UpstreamReadFailed

  function Code(p: Page): nat {
    if p.SniNotAllowed? || p.HostMismatch? then 421 else 502
  }

  function Text(p: Page): string {
    match p
    case SniNotAllowed => "SNI not allowed"
    case HostMismatch => "host/SNI mismatch"
    case UpstreamUnavailable => "upstream unavailable"
    case UpstreamReadFailed => "upstream read failed"
  }

  function Ascii(s: string): bytes {
    seq(|s|, i requires 0 <= i < |s| => (s[i] as int % 128) as byte)
  }

  function Printed(p: Page): bytes {
    Ascii(Text(p)) + [10]
  }

  /** The pages, in full. */
  lemma PagesAre()
    ensures Code(SniNotAllowed) == 421 && Printed(SniNotAllowed) == Ascii("SNI not allowed") + [10]
    ensures Code(HostMismatch) == 421 && Printed(HostMismatch) == Ascii("host/SNI mismatch") + [10]
    ensures Code(UpstreamUnavailable) == 502 && Printed(UpstreamUnavailable) == Ascii("upstream unavailable") + [10]
    ensures Code(UpstreamReadFailed) == 502 && Printed(UpstreamReadFailed) == Ascii("upstream read failed") + [10]
  {
  }

  /** The client has been sent this page, or a beginning of it. */
  ghost predicate Shows(w: Writer, p: Page)
    reads w
  {
    w.status == Some(Code(p)) && w.sent <= Printed(p)
  }

  /** http.Error */
  method HttpError(w: Writer, p: Page)
    requires w.status.None? && w.sent == []
    modifies w
    ensures Shows(w, p)
  {
    w.WriteHeader(Code(p));
    var n, ok := w.Write(Printed(p));
    assert [] + Printed(p)[..n] == Printed(p)[..n];
  }

  /** What is sent for a response that fits. */
  function Answer(cb: Callback, wloc: bool, e: Encoding, c: Codec, body: bytes, limit: int): bytes {
    if cb.Absent? || !wloc || Judge(cb, e, c, body, limit).Kept? then body else Judge(cb, e, c, body, limit).body
  }

  /** What the client should be sent: a response over the limit goes through as it is. */
  function Reply(cb: Callback, wloc: bool, e: Encoding, c: Codec, body: bytes, limit: int): bytes {
    if |body| > limit then body else Answer(cb, wloc, e, c, body, limit)
  }

  /** The client was sent a replacement, all of it. */
  ghost predicate SentReplaced(sent: bytes, cb: Callback, wloc: bool, e: Encoding, c: Codec, body: bytes, limit: int) {
    |body| <= limit && wloc && !cb.Absent? && Judge(cb, e, c, body, limit) == Replaced(sent)
  }

  /** A response that is read to its end within the limit. */
  predicate ReadsWhole(idle: nat, ending: Ending, body: bytes, limit: int) {
    idle == 0 && ending.Eof? && |body| <= limit
  }

  /** The records of a verdict: none, or the one reason. */
  function WhyKept(cb: Callback, e: Encoding, c: Codec, body: bytes, limit: int): seq<Record>
    requires !cb.Absent?
  {
    var v := Judge(cb, e, c, body, limit);
    if v.Kept? then [v.why] else []
  }

  /** The last part of `handle`, for a response that was read whole. */
  method Respond(wloc: bool, cb: Callback, status: nat, e: Encoding, c: Codec, body: bytes, limit: int, w: Writer)
    returns (rest: seq<Record>, ok: bool)
    requires w.status.None? && w.sent == []
    modifies w
    ensures w.status == Some(status)
    ensures LegalRest(rest, wloc)
    ensures w.sent <= Answer(cb, wloc, e, c, body, limit)
    ensures ok ==> w.sent == Answer(cb, wloc, e, c, body, limit)
    ensures ok && wloc && !cb.Absent? ==> (Modified in rest <==> Judge(cb, e, c, body, limit).Replaced?)
    ensures wloc ==> Modified in rest || PassedThrough in rest
    ensures Candidate in rest <==> Modified in rest && cb.Detailed?
    ensures Modified in rest ==> |body| <= limit ==> SentReplaced(w.sent, cb, wloc, e, c, body, limit)
    ensures Reasons(rest) == if cb.Absent? || !wloc then [] else WhyKept(cb, e, c, body, limit)
  {
    hide Judge, Legal, Reasons;
    var d := Decision(body, false, false, false, []);
    if !cb.Absent? && wloc {
      d := Decide(cb, e, c, body, limit);
      VerdictHasReason(cb, e, c, body, limit);
    }
    w.WriteHeader(status);
    var n;
    n, ok := w.Write(d.body);
    if ok { assert d.body[..n] == d.body; }
    var ending: seq<Record> := [];
    if wloc {
      if d.rewritten && ok && n == |d.body| {
        ending := if d.candidate then [Sent, Candidate, Modified] else [Sent, Modified];
      } else {
        ending := [PassedThrough];
      }
    }
    RestIsLegal(d.records, ending, wloc);
    rest := d.records + ending;
  }

  lemma VerdictHasReason(cb: Callback, e: Encoding, c: Codec, body: bytes, limit: int)
    requires !cb.Absent?
    ensures Judge(cb, e, c, body, limit).Kept? ==> IsReason(Judge(cb, e, c, body, limit).why)
  {
  }

  /** The reply to a response over the limit. */
  method StreamOn(wloc: bool, status: nat, prefix: bytes, r: Reader, w: Writer) returns (rest: seq<Record>, ok: bool)
    requires w.status.None? && w.sent == []
    modifies w, r
    ensures w.status == Some(status)
    ensures w.sent <= prefix + old(r.rest)
    ensures ok ==> w.sent == prefix + old(r.rest)
    ensures LegalRest(rest, wloc) && Modified !in rest && Candidate !in rest
    ensures ok <==> UpstreamFailed !in rest
    ensures wloc ==> PassedThrough in rest
  {
    w.WriteHeader(status);
    var n;
    n, ok := w.Write(prefix);
    if ok {
      assert prefix[..n] == prefix;
      ok := Copy(w, r);
    }
    rest := if ok then [] else [UpstreamFailed];
    var ending := if wloc then [PassedThrough] else [];
    RestIsLegal(rest, ending, wloc);
    rest := rest + ending;
  }

  /** A response is read; if that fails the client gets a page instead of it. */
  method Fetch(wloc: bool, status: nat, r: Reader, e: Encoding, cb: Callback, c: Codec, limit: int, w: Writer)
    returns (rest: seq<Record>, ok: bool, page: Option<Page>)
    requires 0 < limit < MAX_INT && w.status.None? && w.sent == []
    modifies w, r
    ensures LegalRest(rest, wloc)
    ensures page.None? ==> w.status == Some(status) && w.sent <= Reply(cb, wloc, e, c, old(r.rest), limit)
    ensures page.Some? ==> page.value.UpstreamReadFailed? && Shows(w, page.value) && rest == [UpstreamFailed]
    ensures page.Some? ==> w.status == Some(502)
    ensures page.Some? ==> r.ending.Error? || r.idle < old(r.idle)
    ensures old(r.idle) == 0 ==> (page.Some? <==> |old(r.rest)| <= limit && !r.ending.Eof?)
    ensures ok && Modified !in rest ==> w.sent == old(r.rest)
    ensures ok ==> page.None? && w.sent == Reply(cb, wloc, e, c, old(r.rest), limit)
    ensures ok && wloc && !cb.Absent? && |old(r.rest)| <= limit
            ==> (Modified in rest <==> Judge(cb, e, c, old(r.rest), limit).Replaced?)
    ensures ok && wloc ==> Modified in rest || PassedThrough in rest
    ensures Candidate in rest <==> Modified in rest && cb.Detailed?
    ensures Modified in rest ==> SentReplaced(w.sent, cb, wloc, e, c, old(r.rest), limit)
    ensures ReadsWhole(old(r.idle), r.ending, old(r.rest), limit) && wloc && !cb.Absent?
            ==> Reasons(rest) == WhyKept(cb, e, c, old(r.rest), limit)
  {
    hide Judge, Reasons, Legal, Printed;
    var b := ReadBounded(r, limit);
    page := None;
    match b
    case Failed =>
      RestIsLegal([UpstreamFailed], [], wloc);
      assert [UpstreamFailed] + [] == [UpstreamFailed];
      rest, ok, page := [UpstreamFailed], false, Some(UpstreamReadFailed);
      HttpError(w, UpstreamReadFailed);
    case TooLong(prefix) =>
      rest, ok := StreamOn(wloc, status, prefix, r, w);
    case Whole(body) =>
      // `handle` tests the length once more at this point; the test cannot succeed
      assert |body| <= limit;
      rest, ok := Respond(wloc, cb, status, e, c, body, limit, w);
  }

  /** The page that a request is answered with before there is a response. */
  function Refusal(q: Request, up: Upstream): Option<Page> {
    if !q.sniAllowed then Some(SniNotAllowed)
    else if !q.hostMatches then Some(HostMismatch)
    else if up.Unreachable? then Some(UpstreamUnavailable)
    else None
  }

  /**
   * `handle` past the slot and the budget, with an observer; `ok` says that no read or write failed. The client
   * is sent either one of the pages, under its code, or the reply under the upstream's status, after an error a
   * prefix of either. Modified is recorded only when all of a rewritten body went out, with the candidate that the
   * detailed callback leaves; a response that was read whole and kept has the one record that its verdict names.
   */
  method Handle(q: Request, up: Upstream, cb: Callback, c: Codec, limit: int, w: Writer)
    returns (trail: seq<Record>, ok: bool, page: Option<Page>)
    requires 0 < limit < MAX_INT && w.status.None? && w.sent == []
    modifies w, if up.Response? then {up.reader} else {}
    ensures Legal(trail)
    ensures Refusal(q, up).Some? ==> page == Refusal(q, up)
    ensures Refusal(q, up).None? && page.Some? ==>
      page.value.UpstreamReadFailed? && (up.reader.ending.Error? || up.reader.idle < old(up.reader.idle))
    ensures Refusal(q, up).None? && old(up.reader.idle) == 0 ==>
      (page.Some? <==> |old(up.reader.rest)| <= limit && !up.reader.ending.Eof?)
    ensures page.Some? ==> Shows(w, page.value) && !ok && Modified !in trail && PassedThrough !in trail
    // the codes: 421 for a name that is not allowed or does not match, 502 for an upstream that fails
    ensures !q.sniAllowed || !q.hostMatches ==> w.status == Some(421)
    ensures q.sniAllowed && q.hostMatches && page.Some? ==> w.status == Some(502)
    ensures q.sniAllowed && q.hostMatches && up.Unreachable? ==> w.status == Some(502)
    // what is not modified reaches the client byte for byte
    ensures ok && Modified !in trail ==> w.sent == old(up.reader.rest)
    ensures page.None? ==> up.Response? && w.status == Some(up.status)
                           && w.sent <= Reply(cb, q.wloc, up.encoding, c, old(up.reader.rest), limit)
    ensures !q.sniAllowed ==> trail == []
    ensures TargetRequest in trail <==> q.sniAllowed && q.wloc
    ensures ok ==> page.None? && w.sent == Reply(cb, q.wloc, up.encoding, c, old(up.reader.rest), limit)
    ensures ok && q.wloc && !cb.Absent? && |old(up.reader.rest)| <= limit
            ==> (Modified in trail <==> Judge(cb, up.encoding, c, old(up.reader.rest), limit).Replaced?)
    ensures Candidate in trail <==> Modified in trail && cb.Detailed?
    ensures Modified in trail ==> up.Response?
    ensures Modified in trail ==> SentReplaced(w.sent, cb, q.wloc, up.encoding, c, old(up.reader.rest), limit)
    ensures up.Response? && ReadsWhole(old(up.reader.idle), up.reader.ending, old(up.reader.rest), limit)
            && q == Request(true, true, true) && !cb.Absent?
            ==> Reasons(trail) == WhyKept(cb, up.encoding, c, old(up.reader.rest), limit)
  {
    hide Judge, Reasons, Legal, Printed;
    TrailIsLegal([], false);
    TrailIsLegal([], true);
    RestIsLegal([], [], true);
    RestIsLegal([], [], false);
    trail, ok, page := [], false, Refusal(q, up);
    assert trail + trail == trail;
    if !q.sniAllowed {
      HttpError(w, SniNotAllowed);
      return;
    }
    if q.wloc { trail := [TargetRequest]; }
    assert trail == trail + [];
    if !q.hostMatches {
      HttpError(w, HostMismatch);
      return;
    }
    var rest;
    match up
    case Unreachable =>
      RestIsLegal([UpstreamFailed], [], q.wloc);
      assert [UpstreamFailed] + [] == [UpstreamFailed];
      rest := [UpstreamFailed];
      HttpError(w, UpstreamUnavailable);
    case Response(status, r, e) =>
      rest, ok, page := Fetch(q.wloc, status, r, e, cb, c, limit, w);
    TrailIsLegal(rest, q.wloc);
    trail := trail + rest;
  }

  // ---- the ledger ----

  predicate IsReason(r: Record) {
    r.Unsupported? || r.RewriteFailed? || r.GzipDecodeFailed? || r.GzipEncodeFailed?
  }

  predicate IsEnd(r: Record) {
    r.Modified? || r.PassedThrough?
  }

  function Reasons(trail: seq<Record>): seq<Record> {
    if trail == [] then [] else (if IsReason(trail[0]) then [trail[0]] else []) + Reasons(trail[1..])
  }

  /** A request is counted before anything else and ends at most once, as the last thing it records. */
  predicate Legal(trail: seq<Record>) {
    && (forall k | 0 <= k < |trail| && trail[k].TargetRequest? :: k == 0)
    && (forall k | 0 <= k < |trail| && IsEnd(trail[k]) :: k == |trail| - 1 && trail[0].TargetRequest?)
    && |Reasons(trail)| <= 1
    && (trail != [] && trail[|trail| - 1].Modified? ==> Reasons(trail) == [] && Sent in trail)
  }

  /** What may follow the count of the request. */
  predicate LegalRest(rest: seq<Record>, counted: bool) {
    && TargetRequest !in rest
    && (forall k | 0 <= k < |rest| && IsEnd(rest[k]) :: k == |rest| - 1 && counted)
    && |Reasons(rest)| <= 1
    && (rest != [] && rest[|rest| - 1].Modified? ==> Reasons(rest) == [] && Sent in rest)
  }

  lemma {:induction false} ReasonsConcat(a: seq<Record>, b: seq<Record>)
    ensures Reasons(a + b) == Reasons(a) + Reasons(b)
  {
    if a == [] {
      assert a + b == b;
    } else {
      ReasonsConcat(a[1..], b);
      var head := if IsReason(a[0]) then [a[0]] else [];
      assert (a + b)[1..] == a[1..] + b;
      assert Reasons(a + b) == head + (Reasons(a[1..]) + Reasons(b));
      assert Reasons(a) == head + Reasons(a[1..]);
      Assoc(head, Reasons(a[1..]), Reasons(b));
    }
  }

  lemma {:induction false} NoReasons(a: seq<Record>)
    requires forall r | r in a :: !IsReason(r)
    ensures Reasons(a) == []
  {
    if a != [] {
      assert a[0] in a;
      NoReasons(a[1..]);
    }
  }

  /** At most one thing that went wrong, then at most one end. */
  lemma RestIsLegal(records: seq<Record>, ending: seq<Record>, counted: bool)
    requires records == [] || (|records| == 1 && (IsReason(records[0]) || records[0].UpstreamFailed?))
    requires ending != [] ==> counted
    requires ending == [] || ending == [PassedThrough]
          || ending == [Sent, Modified] || ending == [Sent, Candidate, Modified]
    requires Modified in ending ==> records == []
    ensures LegalRest(records + ending, counted)
    ensures Reasons(records + ending) == if records != [] && IsReason(records[0]) then records else []
    ensures Modified in records + ending <==> Modified in ending
    ensures Candidate in records + ending <==> Candidate in ending
  {
    hide Reasons;
    ReasonsConcat(records, ending);
    NoReasons(ending);
    ReasonsOfOne(records);
    var rest := records + ending;
    if records == [] {
      assert rest == ending;
    } else {
      assert rest == if ending == [] then [records[0]] else [records[0], PassedThrough];
    }
  }

  lemma ReasonsOfOne(records: seq<Record>)
    requires |records| <= 1
    ensures Reasons(records) == if records != [] && IsReason(records[0]) then records else []
  {
    if records != [] { assert records[1..] == [] && records == [records[0]]; }
  }

  lemma TrailIsLegal(rest: seq<Record>, counted: bool)
    ensures var trail := (if counted then [TargetRequest] else []) + rest;
      && (LegalRest(rest, counted) ==> Legal(trail) && (TargetRequest in trail <==> counted))
      && Reasons(trail) == Reasons(rest) && (Modified in trail <==> Modified in rest)
      && (Candidate in trail <==> Candidate in rest)
  {
    var head := if counted then [TargetRequest] else [];
    ReasonsConcat(head, rest);
    NoReasons(head);
    assert forall k | 0 <= k < |rest| :: (head + rest)[|head| + k] == rest[k];
  }

  function Count(trail: seq<Record>, r: Record): nat {
    if trail == [] then 0 else (if trail[0] == r then 1 else 0) + Count(trail[1..], r)
  }

  lemma {:induction false} CountAppend(trail: seq<Record>, x: Record, r: Record)
    ensures Count(trail + [x], r) == Count(trail, r) + if x == r then 1 else 0
  {
    if trail == [] {
      assert [x][1..] == [] && trail + [x] == [x];
    } else {
      assert (trail + [x])[1..] == trail[1..] + [x];
      CountAppend(trail[1..], x, r);
    }
  }

  lemma {:induction false} NotThere(trail: seq<Record>, r: Record)
    requires r !in trail
    ensures Count(trail, r) == 0
  {
    if trail != [] {
      assert trail[0] in trail;
      NotThere(trail[1..], r);
    }
  }

  lemma {:induction false} IsThere(trail: seq<Record>, r: Record)
    requires r in trail
    ensures Count(trail, r) >= 1
  {
    if trail[0] != r { IsThere(trail[1..], r); }
  }

  lemma NoEndBefore(trail: seq<Record>, m: nat)
    requires Legal(trail) && m < |trail|
    ensures Count(trail[..m], Modified) == 0 && Count(trail[..m], PassedThrough) == 0
  {
    hide Count, Reasons;
    forall k | 0 <= k < m ensures !IsEnd(trail[..m][k]) {
      assert trail[..m][k] == trail[k];
    }
    NotThere(trail[..m], Modified);
    NotThere(trail[..m], PassedThrough);
  }

  lemma CountedOnce(trail: seq<Record>, n: nat)
    requires Legal(trail) && 0 < n <= |trail|
    ensures Count(trail[..n], TargetRequest) == if trail[0].TargetRequest? then 1 else 0
  {
    hide Reasons;
    var rest := trail[..n][1..];
    forall k | 0 <= k < |rest| ensures rest[k] != TargetRequest {
      assert rest[k] == trail[k + 1];
    }
    NotThere(rest, TargetRequest);
  }

  /** In any part of a legal trail: at most one end, only for a counted request, and Modified only after the write. */
  lemma EndsOnce(trail: seq<Record>, n: nat)
    requires Legal(trail) && n <= |trail|
    ensures Count(trail[..n], Modified) + Count(trail[..n], PassedThrough) <= Count(trail[..n], TargetRequest) <= 1
    ensures Count(trail[..n], Modified) <= Count(trail[..n], Sent)
  {
    if n > 0 {
      hide Count, Reasons;
      var last := trail[n - 1];
      assert trail[..n] == trail[..n - 1] + [last];
      NoEndBefore(trail, n - 1);
      CountAppend(trail[..n - 1], last, Modified);
      CountAppend(trail[..n - 1], last, PassedThrough);
      CountedOnce(trail, n);
      if last.Modified? {
        assert trail[..n] == trail;
        IsThere(trail, Sent);
      }
    }
  }

  /** What several requests have recorded so far, added up. */
  function Total(done: seq<seq<Record>>, r: Record): nat {
    if done == [] then 0 else Count(done[0], r) + Total(done[1..], r)
  }

  lemma {:induction false} TotalAppend(done: seq<seq<Record>>, i: nat, x: Record, r: Record)
    requires i < |done|
    ensures Total(done[i := done[i] + [x]], r) == Total(done, r) + if x == r then 1 else 0
  {
    var next := done[i := done[i] + [x]];
    if i == 0 {
      CountAppend(done[0], x, r);
      assert next[1..] == done[1..];
    } else {
      assert next[1..] == done[1..][i - 1 := done[1..][i - 1] + [x]];
      TotalAppend(done[1..], i - 1, x, r);
    }
  }

  /** Each request has recorded part of a legal trail. */
  predicate Underway(done: seq<seq<Record>>, trails: seq<seq<Record>>) {
    |done| == |trails| && forall i | 0 <= i < |done| :: done[i] <= trails[i] && Legal(trails[i])
  }

  lemma {:induction false} LedgerAddsUp(done: seq<seq<Record>>, trails: seq<seq<Record>>)
    requires Underway(done, trails)
    ensures Total(done, Modified) + Total(done, PassedThrough) <= Total(done, TargetRequest) <= |done|
    ensures Total(done, Modified) <= Total(done, Sent)
  {
    hide Legal;
    if done != [] {
      assert done[0] == trails[0][..|done[0]|];
      EndsOnce(trails[0], |done[0]|);
      LedgerAddsUp(done[1..], trails[1..]);
    }
  }

  /** The counters of health.State. Candidates are remembered, not counted. */
  class Metrics {
    var targetRequests: nat
    var responseModified: nat
    var responsePassthrough: nat
    var rewriteUnsupported: nat
    var rewriteFailed: nat
    var gzipDecodeFailed: nat
    var gzipEncodeFailed: nat
    var upstreamFailed: nat

    constructor ()
      ensures Shows([])
    {
      targetRequests, responseModified, responsePassthrough, upstreamFailed := 0, 0, 0, 0;
      rewriteUnsupported, rewriteFailed, gzipDecodeFailed, gzipEncodeFailed := 0, 0, 0, 0;
    }

    /** The counters show exactly what was recorded. */
    ghost predicate Shows(done: seq<seq<Record>>)
      reads this
    {
      && targetRequests == Total(done, TargetRequest)
      && responseModified == Total(done, Modified)
      && responsePassthrough == Total(done, PassedThrough)
      && rewriteUnsupported == Total(done, Unsupported)
      && rewriteFailed == Total(done, RewriteFailed)
      && gzipDecodeFailed == Total(done, GzipDecodeFailed)
      && gzipEncodeFailed == Total(done, GzipEncodeFailed)
      && upstreamFailed == Total(done, UpstreamFailed)
    }

    method Add(x: Record, ghost done: seq<seq<Record>>, ghost i: nat)
      requires i < |done| && Shows(done)
      modifies this
      ensures Shows(done[i := done[i] + [x]])
    {
      forall r: Record {
        TotalAppend(done, i, x, r);
      }
      hide Total;
      match x
      case TargetRequest => targetRequests := targetRequests + 1;
      case Modified => responseModified := responseModified + 1;
      case PassedThrough => responsePassthrough := responsePassthrough + 1;
      case Unsupported => rewriteUnsupported := rewriteUnsupported + 1;
      case RewriteFailed => rewriteFailed := rewriteFailed + 1;
      case GzipDecodeFailed => gzipDecodeFailed := gzipDecodeFailed + 1;
      case GzipEncodeFailed => gzipEncodeFailed := gzipEncodeFailed + 1;
      case UpstreamFailed => upstreamFailed := upstreamFailed + 1;
      case Candidate =>
      case Sent =>
    }
  }

  lemma {:induction false} NothingDone(n: nat, r: Record)
    ensures Total(seq(n, _ => []), r) == 0
  {
    if n > 0 {
      var done: seq<seq<Record>> := seq(n, _ => []);
      assert done[1..] == seq(n - 1, _ => []);
      NothingDone(n - 1, r);
    }
  }

  /**
   * Any interleaving of the records of any number of requests: at every moment the counters show what was
   * recorded, no more responses have ended than requests were counted, and none counts as modified whose body
   * has not been written to its end.
   */
  method Run(m: Metrics, trails: seq<seq<Record>>, schedule: seq<nat>) returns (done: seq<seq<Record>>)
    requires m.Shows([]) && forall t | t in trails :: Legal(t)
    modifies m
    ensures Underway(done, trails) && m.Shows(done)
    ensures m.responseModified + m.responsePassthrough <= m.targetRequests <= |trails|
    ensures m.responseModified <= Total(done, Sent)
  {
    hide Legal, Total;
    done := seq(|trails|, _ => []);
    Zeroes(|trails|);
    for k := 0 to |schedule|
      invariant Underway(done, trails) && m.Shows(done)
    {
      var i := schedule[k];
      if i < |trails| && |done[i]| < |trails[i]| {
        var x := trails[i][|done[i]|];
        m.Add(x, done, i);
        done := done[i := done[i] + [x]];
      }
    }
    LedgerAddsUp(done, trails);
  }

  lemma Zeroes(n: nat)
    ensures forall r :: Total(seq(n, _ => []), r) == Total([], r)
  {
    forall r ensures Total(seq(n, _ => []), r) == Total([], r) {
      NothingDone(n, r);
    }
  }
}
