/** Why a response is not stored: the reason a refusal gives is true of the request and the response. */
module HtmlReasons {
  import opened HttpText
  import opened CacheControl
  import Sidecar
  import opened SidecarMeaning
  import opened HtmlStore
  import HtmlLifetime
  import opened HtmlExpires
  import opened HtmlAdmission

  ghost predicate HasPolicyNonce(headers: seq<Sidecar.Field>) {
    exists k :: 0 <= k < |headers| && PolicyNonce(headers[k])
  }

  ghost predicate HasLinkNonce(headers: seq<Sidecar.Field>) {
    exists k :: 0 <= k < |headers| && LinkNonce(headers[k])
  }

  /** The reason is true of the exchange. */
  ghost predicate Holds(reason: Reason, q: Request, r: Response, p: Policy, signal: (string, bool) -> bool) {
    var h := r.headers;
    match reason
    case Admitted => true
    case ModeOff => p.mode == Off
    case BadMethod => q.verb != "GET"
    case BadStatus => r.status != 200
    case BadUrl => !PlainPath(q.path)
    case AuthRequest => q.hasAuthorization || q.authenticated
    case CookieRequest => q.hasCookie && !Directed(h, "public") && !SharedNumber(h)
    case Incomplete =>
      || !r.complete || !HtmlAdmission.Absent(h, "content-range")
      || (|r.prefix| < r.bodyBytes && |r.prefix| < 65536)
    case SetCookie => !HtmlAdmission.Absent(h, "set-cookie") || !HtmlAdmission.Absent(h, "set-cookie2")
    case IsPrivate => Directed(h, "private")
    case IsNoStore => q.noStore || Directed(h, "no-store")
    case IsNoTransform => Directed(h, "no-transform")
    case VaryRefused => !VariesOnEncodingOnly(h)
    case CspNonce => HasPolicyNonce(h)
    case PreloadNonce => HasLinkNonce(h) && !HasPolicyNonce(h)
    case HeadersRefused => !HasLinkNonce(h) && !HasPolicyNonce(h)
    case ContentType => !exists value :: Only(h, "content-type", value) && SaysHtml(value)
    case Encoding =>
      exists i :: 0 <= i < |h| && Lower(h[i].name) == "content-encoding" && Lower(Trim(h[i].value)) != "identity"
    case NoLifetime =>
      var life := HtmlLifetime.StatedLifetime(h, p.now);
      !CanValidate(h) && (!life.isExplicit || life.needsValidation)
    case TooBig => r.bodyBytes > p.maxBody || r.bodyBytes > 16777216
    case PersonalisationSignal => signal(r.prefix, r.bodyBytes > 65536)
  }

  predicate IsRefusal(reason: Reason) {
    reason != Admitted && reason != IsNoTransform
  }

  lemma NonceReasons(headers: seq<Sidecar.Field>)
    ensures Sidecar.NonceCsp in Sidecar.Classified(headers).reasons <==> HasPolicyNonce(headers)
    ensures Sidecar.Classified(headers).verdict == Sidecar.NeverOptimized
            <==> HasPolicyNonce(headers) || HasLinkNonce(headers)
  {
    hide Sidecar.Decide, PolicyNonce, LinkNonce, Sidecar.TallyOf, Sidecar.Encoded, Sidecar.EncodedSize,
      Sidecar.VaryFrom;
    Sidecar.CarriedAreEncodable(headers);
    Sidecar.ReasonsOfLines(headers, Sidecar.NonceCsp);
    NeverIff(headers);
    forall k | 0 <= k < |headers|
      ensures Sidecar.Decide(headers[k]) == Sidecar.Refuse(Sidecar.NonceCsp) <==> PolicyNonce(headers[k])
    {
      RefusedIff(headers[k]);
    }
  }

  lemma FirstHolds(q: Request, r: Response, p: Policy, signal: (string, bool) -> bool)
    requires FirstRefusal(q, r).Some?
    ensures Holds(FirstRefusal(q, r).value, q, r, p, signal) && IsRefusal(FirstRefusal(q, r).value)
  {
    hide Named, KeySafe, IsHtml, PlainPath, Only, SaysHtml, HtmlAdmission.Absent, Lower, Trim, Directed;
    PathIff(q.path);
    HtmlIff(r.headers);
    NamedIff(r.headers, "content-range");
    NamedIff(r.headers, "set-cookie");
    NamedIff(r.headers, "set-cookie2");
    if !IsIdentity(r.headers) { CodedLine(r.headers); }
  }

  lemma CodedLine(headers: seq<Sidecar.Field>)
    requires !IsIdentity(headers)
    ensures exists i :: 0 <= i < |headers| && Lower(headers[i].name) == "content-encoding"
                        && Lower(Trim(headers[i].value)) != "identity"
  {
    hide Lower, Trim;
    var f :| f in headers && Lower(f.name) == "content-encoding" && Lower(Trim(f.value)) != "identity";
    var i :| 0 <= i < |headers| && headers[i] == f;
  }

  lemma SecondHolds(q: Request, r: Response, p: Policy, signal: (string, bool) -> bool)
    requires SecondRefusal(q, r, ReadCc(r.headers)).Some?
    ensures var reason := SecondRefusal(q, r, ReadCc(r.headers)).value;
            Holds(reason, q, r, p, signal) && IsRefusal(reason)
  {
    hide ReadCc, ExplicitShared, VaryMembers, JoinedVary, VaryAdmitted, Lines, Sidecar.Classified, Directed,
      SharedNumber, VariesOnEncodingOnly, HasPolicyNonce, HasLinkNonce;
    DirectedIff(r.headers, Private);
    DirectedIff(r.headers, NoStore);
    SharedIff(r.headers);
    VaryJoined(Lines(r.headers, "vary"));
    VaryIff(r.headers);
    NonceReasons(r.headers);
  }

  lemma LastHolds(q: Request, r: Response, p: Policy, signal: (string, bool) -> bool)
    ensures LastRefusal(r, p, signal).Some? ==>
              var reason := LastRefusal(r, p, signal).value; Holds(reason, q, r, p, signal) && IsRefusal(reason)
    ensures NoTransform in ReadCc(r.headers).cc.flags ==> Holds(IsNoTransform, q, r, p, signal)
  {
    hide ReadCc, Directed, HtmlAdmission.Absent;
    DirectedIff(r.headers, NoTransform);
  }

  lemma LifetimeHolds(q: Request, r: Response, p: Policy, signal: (string, bool) -> bool)
    ensures var life := LifetimeOf(r.headers, ReadCc(r.headers), p.now);
            !HasValidators(r.headers) && (!life.isExplicit || life.needsValidation) ==>
              Holds(NoLifetime, q, r, p, signal)
  {
    hide ReadCc, LifetimeOf, HtmlLifetime.StatedLifetime, HasValidators, CanValidate;
    HtmlLifetime.LifetimeIsStated(r.headers, p.now);
    ValidatorsIff(r.headers);
  }

  /** The reason given is true, and only a response that may be stored is given none. */
  lemma ReasonHolds(q: Request, r: Response, p: Policy, signal: (string, bool) -> bool)
    ensures var v := ClassifyHtmlForStore(q, r, p, signal);
            && Holds(v.reason, q, r, p, signal)
            && (IsRefusal(v.reason) <==> v.action == Action.Refuse)
  {
    hide FirstRefusal, SecondRefusal, LastRefusal, ReadCc, LifetimeOf, HasValidators, Holds;
    assert Holds(Admitted, q, r, p, signal) && (p.mode == Off ==> Holds(ModeOff, q, r, p, signal)) by {
      Trivially(q, r, p, signal);
    }
    LifetimeHolds(q, r, p, signal);
    LastHolds(q, r, p, signal);
    if FirstRefusal(q, r).Some? {
      FirstHolds(q, r, p, signal);
    } else if SecondRefusal(q, r, ReadCc(r.headers)).Some? {
      SecondHolds(q, r, p, signal);
    }
  }

  lemma Trivially(q: Request, r: Response, p: Policy, signal: (string, bool) -> bool)
    ensures Holds(Admitted, q, r, p, signal) && (p.mode == Off ==> Holds(ModeOff, q, r, p, signal))
  {}
}
