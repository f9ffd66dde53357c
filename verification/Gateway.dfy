/**
 * The production callback, cmd/locspoofd/runtime.go: the proxy of module Outcome with the rewriter of module
 * RewriteBody, from the upstream bytes to what the client decodes.
 */
module Gateway {
  import opened Bytes
  import opened Wire
  import opened WLoc
  import opened WLocMeaning
  import opened Envelope
  import opened BoundedRead
  import Outcome
  import RewriteBody

  /** What the rewriter makes of a decoded body, with a profile or with nothing to rewrite with. */
  function Answer(profile: Option<Profile>, body: bytes): Outcome.Rewriting {
    match profile
    case None => Outcome.Refused(true)
    case Some(p) =>
      match RewriteBody.Rewrite(body, p)
      case Ok(done) => Outcome.Rewrote(done.out)
      case Err(e) => Outcome.Refused(e == Unsupported)
  }

  /** DetailedRewrite with the configuration it finds. */
  function Production(profile: Option<Profile>): Outcome.Callback {
    Outcome.Detailed(body => Answer(profile, body))
  }

  /** A detailed callback that answers every body as the rewriter does. */
  ghost predicate AnswersAs(cb: Outcome.Callback, profile: Option<Profile>) {
    cb.Detailed? && forall body {:trigger Answer(profile, body)} :: cb.f(body) == Answer(profile, body)
  }

  lemma ProductionAnswers(profile: Option<Profile>)
    ensures AnswersAs(Production(profile), profile)
  {
  }

  /** What a decoded body `x` has become in `y`: its payload carries the profile, all around it is as before. */
  ghost predicate Carries(x: bytes, y: bytes, p: Profile, kind: Kind) {
    && Unwrap(x, kind).Payload?
    && var Payload(inner, frame) := Unwrap(x, kind);
    Wrap(frame, inner) == x
    && exists outer :: y == Wrap(frame, outer) && MessageRewritten(inner, outer, p)
  }

  /**
   * From end to end, for the production callback as for any that answers as it does: a response that counts as
   * modified is, for a client that undoes the same encoding, the upstream message in the same envelope with the
   * profile's values in every location, and nothing else.
   */
  lemma ModifiedCarriesProfile(cb: Outcome.Callback, profile: Option<Profile>, e: Outcome.Encoding, c: Codec,
                               body: bytes, limit: int, sent: bytes)
    requires AnswersAs(cb, profile) && Lossless(c) && limit < MAX_INT
    requires Outcome.SentReplaced(sent, cb, true, e, c, body, limit)
    ensures profile.Some?
    ensures var was, now := Outcome.Plain(e, c, body, limit), Outcome.Plain(e, c, sent, limit);
      was.Some? && now.Some? && was != now && exists kind :: Carries(was.value, now.value, profile.value, kind)
  {
    hide RewriteBody.Rewrite, RewriteBody.TryAll, MessageRewritten, Unwrap, Wrap, Lossless;
    Outcome.ReplacedIsRewritten(cb, e, c, body, limit);
    var x := Outcome.Plain(e, c, body, limit).value;
    assert cb.f(x) == Answer(profile, x);
    var p := profile.value;
    RewriteBody.BodyMeaning(x, p);
    var done := RewriteBody.Rewrite(x, p).value;
    assert Carries(x, done.out, p, done.kind);
  }

  /** The rewriter's error on the decoded body is this one. */
  ghost predicate Refuses(profile: Option<Profile>, x: bytes, e: Error) {
    profile.Some? && RewriteBody.Rewrite(x, profile.value) == Err(e)
  }

  /** The rewriter has something new to say. */
  ghost predicate Changes(profile: Option<Profile>, x: bytes) {
    profile.Some? && RewriteBody.Rewrite(x, profile.value).Ok? && RewriteBody.Rewrite(x, profile.value).value.out != x
  }

  /** It has rewritten the body into itself. */
  ghost predicate Repeats(profile: Option<Profile>, x: bytes) {
    profile.Some? && RewriteBody.Rewrite(x, profile.value).Ok? && RewriteBody.Rewrite(x, profile.value).value.out == x
  }

  /**
   * What each reason stands for, whatever the encoding. Unsupported: the encoding is unknown, or the decoded
   * body meets no profile, has no envelope with a location, or already says what the profile says. Failed: the
   * rewriter refuses the body otherwise, or a plain result is over the limit. The gzip reasons: the body cannot
   * be decoded within the limit, or a new one not encoded. There is none exactly when the response is replaced.
   */
  lemma ReasonsMean(profile: Option<Profile>, e: Outcome.Encoding, c: Codec, body: bytes, limit: int)
    ensures var why, x := Outcome.WhyKept(Production(profile), e, c, body, limit), Outcome.Plain(e, c, body, limit);
      && (why == [Outcome.Unsupported] <==>
          e.Unknown?
          || (x.Some? && (profile.None? || Refuses(profile, x.value, Unsupported) || Repeats(profile, x.value))))
      && (why == [Outcome.RewriteFailed] <==>
          x.Some? && (Refuses(profile, x.value, Malformed) || Refuses(profile, x.value, Ambiguous)
                      || (e.Identity? && Changes(profile, x.value) && !Fits(profile, e, c, x.value, limit))))
      && (why == [Outcome.GzipDecodeFailed] <==> e.Gzip? && x.None?)
      && (why == [Outcome.GzipEncodeFailed] <==>
          e.Gzip? && x.Some? && Changes(profile, x.value) && !Fits(profile, e, c, x.value, limit))
      && (why == [] <==> x.Some? && Changes(profile, x.value) && Fits(profile, e, c, x.value, limit))
  {
    hide RewriteBody.Rewrite, RewriteBody.TryAll, GzipBounded, GunzipBounded;
    var x := Outcome.Plain(e, c, body, limit);
    if x.Some? && profile.Some? {
      match RewriteBody.Rewrite(x.value, profile.value) {
        case Ok(_) =>
        case Err(e) =>
          match e { case Malformed => case Ambiguous => case Unsupported => }
      }
    }
  }

  /** The new body can be sent under the encoding. */
  ghost predicate Fits(profile: Option<Profile>, e: Outcome.Encoding, c: Codec, x: bytes, limit: int)
    requires Changes(profile, x)
  {
    Outcome.Encoded(e, c, RewriteBody.Rewrite(x, profile.value).value.out, limit).Some?
  }
}
