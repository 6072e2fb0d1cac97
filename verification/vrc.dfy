/**
  The upstream client of the API server (apps/api/src/vrc.ts): the session
  registry, the Basic credentials header, login, second-factor verification,
  one page of the caller's avatars, and the page-summing avatar count.

  HTTP is an oracle `fetch: Request -> Response` passed in by the caller;
  the body of a response is whatever `readJsonSafe` produced (the parsed
  JSON, or the raw text as a string). Each operation sends distinct
  requests, so one oracle per operation is enough.
 */
module Vrc {
  import opened Wrappers
  import opened Text
  import opened Json
  import Utf8
  import Base64
  import Types

  const VrcBase: string := "https://api.vrchat.cloud/api/1"
  const UserAgent: string := "VRChatAvatarManager/0.1"

  // ---------------------------------------------------------------------
  // Session registry

  /** The cookie jar of a session; its contents are the cookie library's business. */
  datatype CookieJar = CookieJar(cookies: map<string, string>)

  datatype Session = Session(jar: CookieJar)

  /** The server-wide map from session id to session. */
  type Registry = map<string, Session>

  /**
    `createSession()`, with the id `crypto.randomUUID()` would produce passed
    in as `sid`: registers a session with an empty jar under `sid`.
   */
  function CreateSession(reg: Registry, sid: string): (r: Registry)
    ensures HasSession(r, sid) && r[sid] == Session(CookieJar(map[]))
    ensures forall s :: s != sid ==> (HasSession(r, s) <==> HasSession(reg, s))
    ensures forall s :: s != sid && s in reg ==> s in r && r[s] == reg[s]
  {
    reg[sid := Session(CookieJar(map[]))]
  }

  /** `hasSession(sid)`. */
  predicate HasSession(reg: Registry, sid: string) {
    sid in reg
  }

  /** `getSession(sid)`: the session, or `None` where the source throws `NO_SESSION`. */
  function GetSession(reg: Registry, sid: string): (r: Option<Session>)
    ensures r.Some? <==> HasSession(reg, sid)
    ensures r.Some? ==> r.value == reg[sid]
  {
    if sid in reg then Some(reg[sid]) else None
  }

  /** A fresh id adds exactly one session, which `getSession` then finds. */
  lemma CreateSessionFresh(reg: Registry, sid: string)
    requires !HasSession(reg, sid)
    ensures |CreateSession(reg, sid)| == |reg| + 1
    ensures GetSession(CreateSession(reg, sid), sid) == Some(Session(CookieJar(map[])))
  {
    assert CreateSession(reg, sid).Keys == reg.Keys + {sid};
  }

  // ---------------------------------------------------------------------
  // Basic credentials (section 2 of RFC 7617)

  /** `basicAuth(username, password)`: the UTF-8 bytes of `user:pass`, Base64-encoded, after `Basic `. */
  function BasicAuth(username: string, password: string): (r: string)
    ensures "Basic " <= r
    ensures forall i :: 6 <= i < |r| ==> Base64.IsBase64Char(r[i])
  {
    var token := Base64.Encode(Utf8.Encode(username + ":" + password));
    Base64.EncodeAlphabet(Utf8.Encode(username + ":" + password));
    "Basic " + token
  }

  /**
    What a server reads back from an Authorization value: the user-id up to
    the first colon and the password after it.
   */
  function CredentialsOf(header: string): Option<(string, string)> {
    if "Basic " <= header then
      match Base64.Decode(header[6..])
      case None => None
      case Some(bytes) =>
        match Utf8.Decode(bytes)
        case None => None
        case Some(pass) => SplitFirst(pass, ':')
    else None
  }

  /** A user-id without a colon (as section 2 of RFC 7617 demands) comes back with its password. */
  lemma BasicAuthRoundTrip(username: string, password: string)
    requires ':' !in username
    ensures CredentialsOf(BasicAuth(username, password)) == Some((username, password))
  {
    var text := username + ":" + password;
    var h := BasicAuth(username, password);
    assert h[6..] == Base64.Encode(Utf8.Encode(text));
    Base64.DecodeEncode(Utf8.Encode(text));
    Utf8.DecodeEncode(text);
    SplitFirstJoin(username, ':', password);
  }

  // ---------------------------------------------------------------------
  // Requests and responses

  datatype Verb = GET | POST

  /**
    The upstream endpoints the client calls: `/auth/user`, a verification
    path, and the avatars page whose URL `AvatarsUrl` renders.
   */
  datatype Endpoint = AuthUser | Verify(path: string) | Avatars(n: int, offset: int)

  /** A request as `fetchCookie` receives it; the cookie jar is left to the cookie library. */
  datatype Request = Request(verb: Verb, endpoint: Endpoint, headers: seq<(string, string)>, body: Option<Value>)

  /** Status and body (as `readJsonSafe` returned it) of a response. */
  datatype Response = Response(status: int, body: Value) {
    /** `res.ok`: a status in the range 200-299. */
    predicate Ok() {
      200 <= status <= 299
    }
  }

  /** How an operation ended. `NoSession` is the `NO_SESSION` error; `Threw` is any other exception. */
  datatype Outcome<T> = NoSession | Rejected(status: int, body: Value) | Done(value: T) | Threw

  /** The requests an operation sent, in order, and how it ended. */
  datatype Exchange<T> = Exchange(sent: seq<Request>, outcome: Outcome<T>)

  function Prepend<T>(sent: seq<Request>, e: Exchange<T>): Exchange<T> {
    Exchange(sent + e.sent, e.outcome)
  }

  /** The Basic-authenticated `GET /auth/user` that logs in. */
  function LoginRequest(username: string, password: string): Request {
    Request(GET, AuthUser, [("User-Agent", UserAgent), ("Authorization", BasicAuth(username, password))], None)
  }

  /** The cookie-authenticated `GET /auth/user` that follows a verification. */
  const MeRequest: Request := Request(GET, AuthUser, [("User-Agent", UserAgent)], None)

  // ---------------------------------------------------------------------
  // Login

  /** The two successful login states. */
  datatype LoginState = TwoFactorRequired(methods: Value) | LoggedIn(user: Value)

  /** `(data?.requiresTwoFactorAuth ?? []).length > 0`. */
  predicate NeedsSecondFactor(data: Value) {
    match LengthOf(Coalesce(Get(data, "requiresTwoFactorAuth"), Arr([])))
    case Len(k) => k > 0
    case _ => false
  }

  /** `vrcLogin(sid, username, password)`. */
  function Login(reg: Registry, sid: string, username: string, password: string, fetch: Request -> Response)
    : (r: Exchange<LoginState>)
    ensures !HasSession(reg, sid) <==> r == Exchange([], NoSession)
    ensures HasSession(reg, sid) ==> r.sent == [LoginRequest(username, password)]
    ensures HasSession(reg, sid) && !fetch(LoginRequest(username, password)).Ok() ==>
      r.outcome == Rejected(fetch(LoginRequest(username, password)).status, fetch(LoginRequest(username, password)).body)
    ensures HasSession(reg, sid) && fetch(LoginRequest(username, password)).Ok() ==> r.outcome.Done?
    ensures var res := fetch(LoginRequest(username, password));
      HasSession(reg, sid) && res.Ok() && !NeedsSecondFactor(res.body) ==> r.outcome == Done(LoggedIn(res.body))
    ensures r.outcome.Done? && r.outcome.value.TwoFactorRequired? ==>
      LengthOf(r.outcome.value.methods).Len? && LengthOf(r.outcome.value.methods).n > 0
    ensures r.outcome.Done? && r.outcome.value.LoggedIn? ==> r.outcome.value.user == fetch(LoginRequest(username, password)).body
  {
    if !HasSession(reg, sid) then Exchange([], NoSession)
    else
      var req := LoginRequest(username, password);
      var res := fetch(req);
      if !res.Ok() then Exchange([req], Rejected(res.status, res.body))
      else
        var methods := Coalesce(Get(res.body, "requiresTwoFactorAuth"), Arr([]));
        if NeedsSecondFactor(res.body) then Exchange([req], Done(TwoFactorRequired(methods)))
        else Exchange([req], Done(LoggedIn(res.body)))
  }

  /**
    On an accepted login the second factor is required exactly when
    `requiresTwoFactorAuth ?? []` has a positive length, and then that value
    is passed on as it is. An absent or `null` field, or a body that is not
    an object, logs in with the body as the user.
   */
  lemma LoginSecondFactor(reg: Registry, sid: string, username: string, password: string, fetch: Request -> Response)
    requires HasSession(reg, sid) && fetch(LoginRequest(username, password)).Ok()
    ensures var body := fetch(LoginRequest(username, password)).body;
      var listed := Coalesce(Get(body, "requiresTwoFactorAuth"), Arr([]));
      var r := Login(reg, sid, username, password, fetch).outcome;
      && (r.Done? && r.value.TwoFactorRequired? <==> LengthOf(listed).Len? && LengthOf(listed).n > 0)
      && (r.Done? && r.value.TwoFactorRequired? ==> r == Done(TwoFactorRequired(listed)))
      && (Get(body, "requiresTwoFactorAuth").Undefined? || Get(body, "requiresTwoFactorAuth").Null? ==>
            r == Done(LoggedIn(body)))
  {
  }

  // ---------------------------------------------------------------------
  // Second factor

  const EmailOtpPath: string := "/auth/twofactorauth/emailotp/verify"
  const TotpPath: string := "/auth/twofactorauth/totp/verify"

  /** The endpoint for `factor`: e-mail code for exactly `"emailOtp"`, authenticator code for anything else. */
  function VerifyPath(factor: string): (r: string)
    ensures r == EmailOtpPath <==> factor == "emailOtp"
    ensures r == TotpPath <==> factor != "emailOtp"
  {
    if factor == "emailOtp" then EmailOtpPath else TotpPath
  }

  function VerifyRequest(factor: string, code: string): Request {
    Request(POST, Verify(VerifyPath(factor)), [("User-Agent", UserAgent), ("Content-Type", "application/json")],
            Some(Obj(map["code" := Str(code)])))
  }

  /** `vrcVerify2FA(sid, method, code)`: the verification, then the user request. */
  function Verify2FA(reg: Registry, sid: string, factor: string, code: string, fetch: Request -> Response)
    : (r: Exchange<Value>)
    ensures !HasSession(reg, sid) <==> r == Exchange([], NoSession)
    ensures HasSession(reg, sid) ==> |r.sent| >= 1 && r.sent[0] == VerifyRequest(factor, code)
    ensures r.outcome.Done? <==>
      HasSession(reg, sid) && fetch(VerifyRequest(factor, code)).Ok() && fetch(MeRequest).Ok()
    ensures r.outcome.Done? ==> r.sent == [VerifyRequest(factor, code), MeRequest] && r.outcome.value == fetch(MeRequest).body
  {
    if !HasSession(reg, sid) then Exchange([], NoSession)
    else
      var req := VerifyRequest(factor, code);
      var res := fetch(req);
      if !res.Ok() then Exchange([req], Rejected(res.status, res.body))
      else
        var meRes := fetch(MeRequest);
        if !meRes.Ok() then Exchange([req, MeRequest], Rejected(meRes.status, meRes.body))
        else Exchange([req, MeRequest], Done(meRes.body))
  }

  /**
    A refused verification ends the exchange after one request with that
    refusal; a refused user request after an accepted verification is
    reported with its own status and body.
   */
  lemma Verify2FAFirstFailure(reg: Registry, sid: string, factor: string, code: string, fetch: Request -> Response)
    requires HasSession(reg, sid)
    ensures var res := fetch(VerifyRequest(factor, code));
      !res.Ok() ==> Verify2FA(reg, sid, factor, code, fetch) == Exchange([VerifyRequest(factor, code)], Rejected(res.status, res.body))
    ensures var res, me := fetch(VerifyRequest(factor, code)), fetch(MeRequest);
      res.Ok() && !me.Ok() ==> Verify2FA(reg, sid, factor, code, fetch).outcome == Rejected(me.status, me.body)
  {
  }

  // ---------------------------------------------------------------------
  // Avatar pages

  const AvatarsPrefix: string := VrcBase + "/avatars?ownerId=me&releaseStatus=all&n="

  /**
    The URL of the page of `n` avatars starting at `offset`. `String` and
    `encodeURIComponent` leave the digits and minus sign of an integer as
    they are.
   */
  function AvatarsUrl(n: int, offset: int): string {
    AvatarsPrefix + IntToString(n) + "&offset=" + IntToString(offset)
  }

  /** Reads the page size and offset back out of an avatars URL. */
  function AvatarsQuery(url: string): Option<(int, int)> {
    if AvatarsPrefix <= url then
      match SplitFirst(url[|AvatarsPrefix|..], '&')
      case None => None
      case Some((n, rest)) =>
        if "offset=" <= rest then
          match (ParseInt(n), ParseInt(rest[7..]))
          case (Some(a), Some(b)) => Some((a, b))
          case _ => None
        else None
    else None
  }

  /** The query of an avatars URL reads back as the page size and offset it was built from. */
  lemma AvatarsUrlRoundTrip(n: int, offset: int)
    ensures AvatarsQuery(AvatarsUrl(n, offset)) == Some((n, offset))
  {
    var ns, os := IntToString(n), IntToString(offset);
    assert '&' !in ns;
    IntToStringRoundTrip(n);
    IntToStringRoundTrip(offset);
    AvatarsQueryOf(ns, os);
  }

  /** The query parser finds the two numbers on either side of the first `&`. */
  lemma AvatarsQueryOf(ns: string, os: string)
    requires '&' !in ns && ParseInt(ns).Some? && ParseInt(os).Some?
    ensures AvatarsQuery(AvatarsPrefix + ns + "&offset=" + os) == Some((ParseInt(ns).value, ParseInt(os).value))
  {
    var tail := ns + ['&'] + ("offset=" + os);
    assert AvatarsPrefix + ns + "&offset=" + os == AvatarsPrefix + tail;
    DropPrefix(AvatarsPrefix, tail);
    SplitFirstJoin(ns, '&', "offset=" + os);
    DropPrefix("offset=", os);
  }

  lemma DropPrefix<T>(p: seq<T>, t: seq<T>)
    ensures p <= p + t && (p + t)[|p|..] == t
  {
  }

  /** Different pages are requested under different URLs. */
  lemma AvatarsUrlInjective(n1: int, o1: int, n2: int, o2: int)
    requires AvatarsUrl(n1, o1) == AvatarsUrl(n2, o2)
    ensures n1 == n2 && o1 == o2
  {
    AvatarsUrlRoundTrip(n1, o1);
    AvatarsUrlRoundTrip(n2, o2);
  }

  function AvatarsRequest(n: int, offset: int): Request {
    Request(GET, Avatars(n, offset), [("User-Agent", UserAgent)], None)
  }

  /** `vrcGetMyAvatars(sid, n, offset)`; an omitted argument is `None` and takes its default (50 and 0). */
  function GetMyAvatars(reg: Registry, sid: string, n: Option<int>, offset: Option<int>, fetch: Request -> Response)
    : (r: Exchange<Value>)
    ensures !HasSession(reg, sid) <==> r == Exchange([], NoSession)
    ensures HasSession(reg, sid) ==> r.sent == [AvatarsRequest(n.GetOr(50), offset.GetOr(0))]
    ensures HasSession(reg, sid) ==>
      var res := fetch(AvatarsRequest(n.GetOr(50), offset.GetOr(0)));
      r.outcome == if res.Ok() then Done(res.body) else Rejected(res.status, res.body)
  {
    if !HasSession(reg, sid) then Exchange([], NoSession)
    else
      var req := AvatarsRequest(n.GetOr(50), offset.GetOr(0));
      var res := fetch(req);
      if !res.Ok() then Exchange([req], Rejected(res.status, res.body))
      else Exchange([req], Done(res.body))
  }

  // ---------------------------------------------------------------------
  // Counting avatars

  /** The request for the `page`-th page of the count: 100 avatars from offset `100 * page`. */
  function PageRequest(page: nat): Request {
    AvatarsRequest(100, 100 * page)
  }

  /** A running JavaScript total: a count, or `NaN` once a page without a length was added. */
  datatype Total = Count(n: int) | NaN

  /** `total += data.length`: a missing length makes the total `NaN`, and `NaN` stays `NaN`. */
  function AddLength(t: Total, len: Length): (r: Total)
    requires !len.Throws?
    ensures r.Count? <==> t.Count? && len.Len?
    ensures r.Count? ==> r.n == t.n + len.n
  {
    match (t, len)
    case (Count(a), Len(k)) => Count(a + k)
    case _ => NaN
  }

  /** `data.length < n` with `n = 100`; false for a missing length (`undefined < 100`). */
  predicate ShortPage(len: Length) {
    len.Len? && len.n < 100
  }

  /** The count stops at `page`: the page is refused, its length throws, or it is short. */
  predicate Stops(fetch: Request -> Response, page: nat) {
    var res := fetch(PageRequest(page));
    !res.Ok() || LengthOf(res.body).Throws? || ShortPage(LengthOf(res.body))
  }

  /**
    The count from `page` on, with `total` summed so far. `bound` is a page
    at which the count stops; the source loops forever when there is none.
   */
  function CountFrom(fetch: Request -> Response, page: nat, total: Total, bound: nat): (r: Exchange<Total>)
    requires page <= bound && Stops(fetch, bound)
    ensures 1 <= |r.sent| <= bound - page + 1
    ensures r.outcome.Rejected? || r.outcome.Done? || r.outcome.Threw?
    decreases bound - page
  {
    var req := PageRequest(page);
    var res := fetch(req);
    if !res.Ok() then Exchange([req], Rejected(res.status, res.body))
    else
      var len := LengthOf(res.body);
      if len.Throws? then Exchange([req], Threw)
      else
        var t := AddLength(total, len);
        if ShortPage(len) then Exchange([req], Done(t))
        else Prepend([req], CountFrom(fetch, page + 1, t, bound))
  }

  /**
    `vrcCountMyAvatars(sid)`. The loop requests pages of 100 at offsets 0,
    100, 200, ... and agrees with `CountFrom`; `bound` is any page at which
    the count stops.
   */
  method CountMyAvatars(reg: Registry, sid: string, fetch: Request -> Response, ghost bound: nat)
    returns (r: Exchange<Total>)
    requires HasSession(reg, sid) ==> Stops(fetch, bound)
    ensures !HasSession(reg, sid) ==> r == Exchange([], NoSession)
    ensures HasSession(reg, sid) ==> r == CountFrom(fetch, 0, Count(0), bound)
  {
    if sid !in reg {
      return Exchange([], NoSession);
    }
    var offset: nat := 0;
    var n := 100;
    var total := Count(0);
    var sent: seq<Request> := [];
    ghost var page: nat := 0;
    ghost var goal := CountFrom(fetch, 0, Count(0), bound);
    assert goal == Prepend(sent, goal);
    while true
      invariant page <= bound
      invariant offset == 100 * page && n == 100
      invariant goal == Prepend(sent, CountFrom(fetch, page, total, bound))
      decreases bound - page
    {
      var req := AvatarsRequest(n, offset);
      var res := fetch(req);
      assert req == PageRequest(page);
      LoopStep(fetch, page, total, bound, sent, goal);
      sent := sent + [req];
      if !res.Ok() {
        return Exchange(sent, Rejected(res.status, res.body));
      }
      var len := LengthOf(res.body);
      if len.Throws? {
        return Exchange(sent, Threw);
      }
      total := AddLength(total, len);
      if len.Len? && len.n < n {
        return Exchange(sent, Done(total));
      }
      offset := offset + n;
      page := page + 1;
    }
  }

  /** One step of the count: how the page at `page` ends it or hands on to the next page. */
  lemma CountFromStep(fetch: Request -> Response, page: nat, total: Total, bound: nat)
    requires page <= bound && Stops(fetch, bound)
    ensures var req, res := PageRequest(page), fetch(PageRequest(page));
      var len, r := LengthOf(res.body), CountFrom(fetch, page, total, bound);
      && (!res.Ok() ==> r == Exchange([req], Rejected(res.status, res.body)))
      && (res.Ok() && len.Throws? ==> r == Exchange([req], Threw))
      && (res.Ok() && ShortPage(len) ==> r == Exchange([req], Done(AddLength(total, len))))
      && (!Stops(fetch, page) ==> page < bound && r == Prepend([req], CountFrom(fetch, page + 1, AddLength(total, len), bound)))
  {
  }

  /** The loop's bookkeeping across one page: what the whole count is, given what was sent before. */
  lemma LoopStep(fetch: Request -> Response, page: nat, total: Total, bound: nat, before: seq<Request>, goal: Exchange<Total>)
    requires page <= bound && Stops(fetch, bound)
    requires goal == Prepend(before, CountFrom(fetch, page, total, bound))
    ensures var req, res := PageRequest(page), fetch(PageRequest(page));
      var len, sent := LengthOf(res.body), before + [req];
      && (!res.Ok() ==> goal == Exchange(sent, Rejected(res.status, res.body)))
      && (res.Ok() && len.Throws? ==> goal == Exchange(sent, Threw))
      && (res.Ok() && ShortPage(len) ==> goal == Exchange(sent, Done(AddLength(total, len))))
      && (!Stops(fetch, page) ==> page < bound && goal == Prepend(sent, CountFrom(fetch, page + 1, AddLength(total, len), bound)))
  {
    CountFromStep(fetch, page, total, bound);
    var len := LengthOf(fetch(PageRequest(page)).body);
    if !Stops(fetch, page) {
      PrependTwice(before, [PageRequest(page)], CountFrom(fetch, page + 1, AddLength(total, len), bound));
    }
  }

  /** The count requests consecutive pages, offsets 100 apart, starting at `page`. */
  lemma {:induction false} CountFromPages(fetch: Request -> Response, page: nat, total: Total, bound: nat)
    requires page <= bound && Stops(fetch, bound)
    ensures forall i :: 0 <= i < |CountFrom(fetch, page, total, bound).sent| ==>
      CountFrom(fetch, page, total, bound).sent[i] == PageRequest(page + i)
    decreases bound - page
  {
    var r := CountFrom(fetch, page, total, bound);
    if !Stops(fetch, page) {
      var len := LengthOf(fetch(PageRequest(page)).body);
      var rest := CountFrom(fetch, page + 1, AddLength(total, len), bound);
      assert r.sent == [PageRequest(page)] + rest.sent;
      CountFromPages(fetch, page + 1, AddLength(total, len), bound);
      forall i | 1 <= i < |r.sent|
        ensures r.sent[i] == PageRequest(page + i)
      {
        assert r.sent[i] == rest.sent[i - 1];
      }
    }
  }

  /** The first page from `page` on at which the count stops. */
  function FirstStop(fetch: Request -> Response, page: nat, bound: nat): (j: nat)
    requires page <= bound && Stops(fetch, bound)
    ensures page <= j <= bound && Stops(fetch, j)
    ensures forall k :: page <= k < j ==> !Stops(fetch, k)
    decreases bound - page
  {
    if Stops(fetch, page) then page else FirstStop(fetch, page + 1, bound)
  }

  /**
    The total after adding the lengths of pages `page` to `j` to `total`,
    one `total += data.length` per page.
   */
  function PagesTotal(fetch: Request -> Response, page: nat, j: nat, total: Total): Total
    requires page <= j
    decreases j - page
  {
    var len := LengthOf(fetch(PageRequest(page)).body);
    var t := if len.Throws? then NaN else AddLength(total, len);
    if page == j then t else PagesTotal(fetch, page + 1, j, t)
  }

  /**
    The count ends at the first page that stops it, with that page's
    refusal, with the exception its length threw, or, when it was short,
    with the sum of the lengths of all pages up to it.
   */
  lemma {:induction false} CountEndsAtFirstStop(fetch: Request -> Response, page: nat, total: Total, bound: nat)
    requires page <= bound && Stops(fetch, bound)
    ensures var r, j := CountFrom(fetch, page, total, bound), FirstStop(fetch, page, bound);
      var res := fetch(PageRequest(j));
      && |r.sent| == j - page + 1
      && (!res.Ok() ==> r.outcome == Rejected(res.status, res.body))
      && (res.Ok() && LengthOf(res.body).Throws? ==> r.outcome == Threw)
      && (res.Ok() && ShortPage(LengthOf(res.body)) ==> r.outcome == Done(PagesTotal(fetch, page, j, total)))
    decreases bound - page
  {
    if !Stops(fetch, page) {
      var len := LengthOf(fetch(PageRequest(page)).body);
      var j := FirstStop(fetch, page, bound);
      assert page < j;
      assert PagesTotal(fetch, page, j, total) == PagesTotal(fetch, page + 1, j, AddLength(total, len));
      CountEndsAtFirstStop(fetch, page + 1, AddLength(total, len), bound);
    }
  }

  /**
    A page that is accepted but has no length never stops the count
    (`undefined < 100` is false), so an upstream answering every page with
    `{}` is asked for pages forever.
   */
  lemma EmptyObjectPagesNeverStop(fetch: Request -> Response)
    requires forall i: nat :: fetch(PageRequest(i)) == Response(200, Obj(map[]))
    ensures forall page: nat :: !Stops(fetch, page)
  {
    forall page: nat
      ensures !Stops(fetch, page)
    {
      assert fetch(PageRequest(page)) == Response(200, Obj(map[]));
      assert LengthOf(Obj(map[])) == NoLength;
    }
  }

  lemma PrependTwice<T>(a: seq<Request>, b: seq<Request>, e: Exchange<T>)
    ensures Prepend(a, Prepend(b, e)) == Prepend(a + b, e)
  {
    assert a + (b + e.sent) == (a + b) + e.sent;
  }

  /** The `i`-th slice of 100 of `all` (empty past the end). */
  function Slice(all: seq<Value>, i: nat): seq<Value> {
    var lo := if 100 * i <= |all| then 100 * i else |all|;
    var hi := if 100 * i + 100 <= |all| then 100 * i + 100 else |all|;
    all[lo..hi]
  }

  /** The upstream serves `all` in consecutive slices of 100 and accepts every page request. */
  ghost predicate Serves(fetch: Request -> Response, all: seq<Value>) {
    forall i: nat :: fetch(PageRequest(i)) == Response(200, Arr(Slice(all, i)))
  }

  lemma {:induction false} CountFromServed(fetch: Request -> Response, all: seq<Value>, page: nat)
    requires Serves(fetch, all) && page <= |all| / 100
    requires Stops(fetch, |all| / 100)
    ensures CountFrom(fetch, page, Count(100 * page), |all| / 100).outcome == Done(Count(|all|))
    decreases |all| / 100 - page
  {
    var res := fetch(PageRequest(page));
    assert res == Response(200, Arr(Slice(all, page)));
    if page < |all| / 100 {
      assert |Slice(all, page)| == 100;
      CountFromServed(fetch, all, page + 1);
    } else {
      assert |Slice(all, page)| == |all| - 100 * page;
    }
  }

  /** When the pages are the consecutive slices of a list, the count is the list's length. */
  lemma CountOfServedList(fetch: Request -> Response, all: seq<Value>)
    requires Serves(fetch, all)
    ensures Stops(fetch, |all| / 100)
    ensures CountFrom(fetch, 0, Count(0), |all| / 100).outcome == Done(Count(|all|))
  {
    var last := |all| / 100;
    assert fetch(PageRequest(last)) == Response(200, Arr(Slice(all, last)));
    assert |Slice(all, last)| == |all| - 100 * last < 100;
    assert ShortPage(LengthOf(Arr(Slice(all, last))));
    CountFromServed(fetch, all, 0);
  }
}
