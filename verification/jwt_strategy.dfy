/** Request authentication: the access token is taken from an
    `Authorization: Bearer <token>` header, its signature is checked by an
    abstract verifier, an expired token is refused, and the verified claims
    become the request's principal field by field. */
module JwtStrategy {
  import opened Common

  /** The claims carried by an access token. */
  datatype JwtPayload = JwtPayload(sub: Id, email: string, memberId: Id, role: string)

  /** The authenticated caller attached to the request. */
  datatype Principal = Principal(userId: Id, email: string, memberId: Id, role: string)

  /** A token whose signature checked out: its payload and its optional
      `exp` claim, in seconds since the epoch. */
  datatype VerifiedToken = VerifiedToken(payload: JwtPayload, exp: Option<int>)

  /** Maps verified claims to the principal: `sub` becomes `userId`, the
      other three claims are copied unchanged. */
  function Validate(p: JwtPayload): (r: Principal)
    ensures r.userId == p.sub
    ensures r.email == p.email && r.memberId == p.memberId && r.role == p.role
  {
    Principal(p.sub, p.email, p.memberId, p.role)
  }

  /** The claims a principal was built from: the inverse of `Validate`. */
  function ToPayload(pr: Principal): (r: JwtPayload)
    ensures Validate(r) == pr
  {
    JwtPayload(pr.userId, pr.email, pr.memberId, pr.role)
  }

  /** No claim is lost on the way to the principal. */
  lemma ValidateLosesNothing(p: JwtPayload)
    ensures ToPayload(Validate(p)) == p
  {
  }

  /** ASCII lower-casing; the scheme name is compared case-insensitively. */
  function LowerAscii(c: char): (r: char)
    ensures r == ' ' <==> c == ' '
  {
    if 'A' <= c <= 'Z' then (c as int - 'A' as int + 'a' as int) as char else c
  }

  function Lower(s: string): (r: string)
    ensures |r| == |s|
    ensures forall i | 0 <= i < |s| :: r[i] == LowerAscii(s[i])
  {
    seq(|s|, i requires 0 <= i < |s| => LowerAscii(s[i]))
  }

  predicate IsBearerScheme(scheme: string) {
    Lower(scheme) == "bearer"
  }

  /** Position of the first space of `s`, or `|s|` when there is none. */
  function IndexOfSpace(s: string): (i: nat)
    ensures i <= |s|
    ensures i < |s| ==> s[i] == ' '
    ensures forall j | 0 <= j < i :: s[j] != ' '
  {
    if s == [] || s[0] == ' ' then 0 else 1 + IndexOfSpace(s[1..])
  }

  /** `h` is a bearer scheme name, one space, then `t`. */
  predicate BearerForm(h: string, t: string) {
    && |t| < |h|
    && h[|h| - |t| - 1] == ' '
    && h[|h| - |t|..] == t
    && IsBearerScheme(h[..|h| - |t| - 1])
  }

  /** The characters JavaScript's `\s` matches: ASCII tab, line feed,
      vertical tab, form feed, carriage return and space, the no-break space,
      the byte-order mark and the Unicode space separators and line and
      paragraph separators. */
  predicate JsWhitespace(c: char) {
    || c == '\t' || c == '\n' || c == '\U{B}' || c == '\U{C}' || c == '\r' || c == ' '
    || c == '\U{A0}' || c == '\U{1680}' || '\U{2000}' <= c <= '\U{200A}'
    || c == '\U{2028}' || c == '\U{2029}' || c == '\U{202F}' || c == '\U{205F}'
    || c == '\U{3000}' || c == '\U{FEFF}'
  }

  /** A token as the header carries it: non-empty and free of whitespace,
      so that it is one `\S+` run of the header pattern. */
  predicate WellFormedToken(t: string) {
    t != "" && forall i | 0 <= i < |t| :: !JsWhitespace(t[i])
  }

  /** Extracts the token of an `Authorization: Bearer <token>` header; a
      missing header, another scheme or a malformed value yields nothing. */
  function ParseBearer(header: Option<string>): (r: Option<string>)
    ensures header.None? ==> r.None?
    ensures r.Some? ==> header.Some? && BearerForm(header.value, r.value) && WellFormedToken(r.value)
  {
    match header
    case None => None
    case Some(h) =>
      var i := IndexOfSpace(h);
      if i == |h| then None
      else
        var token := h[i + 1..];
        if IsBearerScheme(h[..i]) && WellFormedToken(token) then
          assert h[|h| - |token|..] == token;
          Some(token)
        else None
  }

  /** Every well-formed bearer header is accepted, with its own token. */
  lemma BearerFormParses(h: string, t: string)
    requires BearerForm(h, t) && WellFormedToken(t)
    ensures ParseBearer(Some(h)) == Some(t)
  {
  }

  /** The header a client sends for a token. */
  function BearerHeader(t: string): string {
    "Bearer " + t
  }

  lemma BearerHeaderRoundTrip(t: string)
    requires WellFormedToken(t)
    ensures ParseBearer(Some(BearerHeader(t))) == Some(t)
  {
    var h := BearerHeader(t);
    assert h[..6] == "Bearer";
    assert Lower("Bearer") == "bearer";
    assert h[7..] == t;
    BearerFormParses(h, t);
  }

  /** Expiration is not ignored: a token is expired once the clock has
      reached its `exp` claim. A token without `exp` never expires. */
  predicate Expired(v: VerifiedToken, nowSeconds: int) {
    v.exp.Some? && v.exp.value <= nowSeconds
  }

  /** Authenticates a request. `verify` stands for the signature check
      against the configured secret: it yields the token's claims, or
      nothing for a forged, malformed or foreign token. */
  function Authenticate(header: Option<string>, verify: string -> Option<VerifiedToken>, nowSeconds: int): (r: Result<Principal>)
    ensures r.Failure? ==> r.error == Unauthenticated
    ensures r.Success? <==>
      && ParseBearer(header).Some?
      && verify(ParseBearer(header).value).Some?
      && !Expired(verify(ParseBearer(header).value).value, nowSeconds)
    ensures r.Success? ==> r.value == Validate(verify(ParseBearer(header).value).value.payload)
  {
    match ParseBearer(header)
    case None => Failure(Unauthenticated)
    case Some(token) =>
      match verify(token)
      case None => Failure(Unauthenticated)
      case Some(v) =>
        if Expired(v, nowSeconds) then Failure(Unauthenticated)
        else Success(Validate(v.payload))
  }

  /** An expired token is refused even when its signature is valid. */
  lemma ExpiredIsRejected(t: string, verify: string -> Option<VerifiedToken>, nowSeconds: int)
    requires WellFormedToken(t)
    requires verify(t).Some? && Expired(verify(t).value, nowSeconds)
    ensures Authenticate(Some(BearerHeader(t)), verify, nowSeconds) == Failure(Unauthenticated)
  {
  }

  /** A valid, unexpired token sent as a bearer header authenticates as
      the principal its claims describe. */
  lemma ValidTokenAuthenticates(t: string, verify: string -> Option<VerifiedToken>, nowSeconds: int)
    requires WellFormedToken(t)
    requires verify(t).Some? && !Expired(verify(t).value, nowSeconds)
    ensures Authenticate(Some(BearerHeader(t)), verify, nowSeconds) == Success(Validate(verify(t).value.payload))
  {
    BearerHeaderRoundTrip(t);
  }
}
