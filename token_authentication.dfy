/**
 * HandleAuthenticateAsync: the per-request decision over the raw Authorization header, the
 * token table joined to its owners, and the current time. A chain of checks in which the
 * first failing one decides; it reads the tables and never writes them.
 */
module TokenAuthentication {
  import opened Wrappers
  import opened Models
  import opened AuthorizationHeader
  import Data
  import DbSetExtensions
  import Decimal
  import Linq

  /** The failure messages; the logout and refresh endpoints reuse the first, second and fourth. */
  const MissingAuthorizationHeaderMessage: string := "Missing authorization header"
  const InvalidHeaderFormatMessage: string := "Invalid authorization header format"
  const MissingAccessTokenMessage: string := "Missing access token"
  const InvalidAccessTokenMessage: string := "Invalid access token"
  const TokenExpiredMessage: string := "Token has expired"

  /** The five failures, in the order the checks run. */
  datatype Failure =
    | MissingAuthorizationHeader
    | InvalidAuthorizationHeaderFormat
    | MissingAccessToken
    | InvalidAccessToken
    | TokenExpired
  {
    function Message(): string {
      match this
      case MissingAuthorizationHeader => MissingAuthorizationHeaderMessage
      case InvalidAuthorizationHeaderFormat => InvalidHeaderFormatMessage
      case MissingAccessToken => MissingAccessTokenMessage
      case InvalidAccessToken => InvalidAccessTokenMessage
      case TokenExpired => TokenExpiredMessage
    }
  }

  /** The claim types of the identity; the first two are the ClaimTypes URIs. */
  const NameIdentifierClaimType: string := "http://schemas.xmlsoap.org/ws/2005/05/identity/claims/nameidentifier"
  const NameClaimType: string := "http://schemas.xmlsoap.org/ws/2005/05/identity/claims/name"
  const UserIdClaimType: string := "UserId"
  const TokenIdClaimType: string := "TokenId"

  datatype Claim = Claim(claimType: string, value: string)

  datatype AuthenticateResult = Fail(failure: Failure) | Success(claims: seq<Claim>)

  /** The claim list built on success: the owner's id (twice), the owner's name and the token's id. */
  function Claims(owner: User, token: Token): (c: seq<Claim>)
    ensures |c| == 4
  {
    [ Claim(NameIdentifierClaimType, Decimal.IntToString(owner.id)),
      Claim(NameClaimType, owner.username),
      Claim(UserIdClaimType, Decimal.IntToString(owner.id)),
      Claim(TokenIdClaimType, Decimal.IntToString(token.id)) ]
  }

  /** The token row matched by `Tokens.Include(t => t.User).FirstOrDefault(t => t.AccessToken == key)`. */
  predicate Matches(users: seq<User>, key: string, t: Token) {
    t.accessToken == key && DbSetExtensions.LiveIndex(users, t.userId).Some?
  }

  /**
   * The required-navigation Include is an inner join with the filtered Users set, so a
   * token is found only together with a live owner.
   */
  function FindByAccessToken(tokens: seq<Token>, users: seq<User>, key: string): (r: Option<nat>)
    ensures r.Some? ==> r.value < |tokens| && Matches(users, key, tokens[r.value])
    ensures r.Some? ==> forall j :: 0 <= j < r.value ==> !Matches(users, key, tokens[j])
    ensures r.None? <==> forall j :: 0 <= j < |tokens| ==> !Matches(users, key, tokens[j])
  {
    Linq.FirstIndex(tokens, (t: Token) => Matches(users, key, t))
  }

  /** Checks 1-3, on the header alone: a failure, or the trimmed credential. */
  datatype HeaderCheck = HeaderRejected(failure: Failure) | Presented(credential: string)

  function CheckHeader(header: Option<string>): (r: HeaderCheck)
    ensures r == HeaderRejected(MissingAuthorizationHeader) <==> header.None?
    ensures r == HeaderRejected(InvalidAuthorizationHeaderFormat)
        <==> header.Some? && (header.value == "" || !StartsWithIgnoreCase(header.value, BearerPrefix))
    ensures r == HeaderRejected(MissingAccessToken)
        <==> && header.Some? && header.value != "" && StartsWithIgnoreCase(header.value, BearerPrefix)
             && forall i :: |BearerPrefix| <= i < |header.value| ==> IsWhiteSpace(header.value[i])
    ensures r.HeaderRejected? ==>
      r.failure in {MissingAuthorizationHeader, InvalidAuthorizationHeaderFormat, MissingAccessToken}
    ensures r.Presented? ==>
      && header.Some? && r.credential != "" && IsTrimmed(r.credential)
      && Parse(header.value, BearerPrefix) == Credential(r.credential)
  {
    if header.None? then HeaderRejected(MissingAuthorizationHeader)
    else match Parse(header.value, BearerPrefix)
      case EmptyHeader => HeaderRejected(InvalidAuthorizationHeaderFormat)
      case WrongScheme => HeaderRejected(InvalidAuthorizationHeaderFormat)
      case Credential(bearer) =>
        if bearer == "" then
          EmptyCredentialIff(header.value, BearerPrefix);
          HeaderRejected(MissingAccessToken)
        else
          assert !(forall i :: |BearerPrefix| <= i < |header.value| ==> IsWhiteSpace(header.value[i])) by {
            EmptyCredentialIff(header.value, BearerPrefix);
          }
          Presented(bearer)
  }

  /** Checks 4-5 and the claim set, for a credential that passed checks 1-3. */
  function CheckToken(credential: string, tokens: seq<Token>, users: seq<User>, now: int): (r: AuthenticateResult)
    ensures r == Fail(InvalidAccessToken) <==> forall j :: 0 <= j < |tokens| ==> !Matches(users, credential, tokens[j])
    ensures r == Fail(TokenExpired)
        <==> && FindByAccessToken(tokens, users, credential).Some?
             && now > ExpiresAt(tokens[FindByAccessToken(tokens, users, credential).value])
    ensures r.Fail? ==> r.failure == InvalidAccessToken || r.failure == TokenExpired
    ensures r.Success? ==>
      var t := tokens[FindByAccessToken(tokens, users, credential).value];
      && now <= ExpiresAt(t)
      && DbSetExtensions.FindWithFilters(users, t.userId).Some?
      && r.claims == Claims(DbSetExtensions.FindWithFilters(users, t.userId).value, t)
  {
    match FindByAccessToken(tokens, users, credential)
    case None => Fail(InvalidAccessToken)
    case Some(k) =>
      var owner := users[DbSetExtensions.LiveIndex(users, tokens[k].userId).value];
      if now > ExpiresAt(tokens[k]) then Fail(TokenExpired)
      else Success(Claims(owner, tokens[k]))
  }

  /**
   * The authentication decision for one request at time `now`. The three header failures
   * are reported exactly when the header itself is rejected, whatever the tables hold, and
   * success needs a "Bearer " header.
   */
  function HandleAuthenticate(header: Option<string>, tokens: seq<Token>, users: seq<User>, now: int): (r: AuthenticateResult)
    ensures (r.Fail? && r.failure in {MissingAuthorizationHeader, InvalidAuthorizationHeaderFormat, MissingAccessToken})
        <==> CheckHeader(header).HeaderRejected?
    ensures r.Success? ==> header.Some? && StartsWithIgnoreCase(header.value, BearerPrefix)
  {
    match CheckHeader(header)
    case HeaderRejected(f) => Fail(f)
    case Presented(bearer) => CheckToken(bearer, tokens, users, now)
  }

  // ---- The decision chain, one check at a time ----

  /** Check 1: the header is absent — and only then. */
  lemma MissingHeaderIff(header: Option<string>, tokens: seq<Token>, users: seq<User>, now: int)
    ensures HandleAuthenticate(header, tokens, users, now) == Fail(MissingAuthorizationHeader)
        <==> header.None?
  {
  }

  /** Check 2: present but empty (not "missing"), or not starting with "Bearer " under ASCII case folding. */
  lemma InvalidFormatIff(header: Option<string>, tokens: seq<Token>, users: seq<User>, now: int)
    ensures HandleAuthenticate(header, tokens, users, now) == Fail(InvalidAuthorizationHeaderFormat)
        <==> header.Some? && (header.value == "" || !StartsWithIgnoreCase(header.value, BearerPrefix))
  {
  }

  /** Check 3: the text after the 7-character prefix is all whitespace. */
  lemma MissingAccessTokenIff(header: Option<string>, tokens: seq<Token>, users: seq<User>, now: int)
    ensures HandleAuthenticate(header, tokens, users, now) == Fail(MissingAccessToken)
        <==> && header.Some? && header.value != "" && StartsWithIgnoreCase(header.value, BearerPrefix)
             && forall i :: |BearerPrefix| <= i < |header.value| ==> IsWhiteSpace(header.value[i])
  {
  }

  /** Check 4: a well-formed credential that no token row (with a live owner) carries. */
  lemma InvalidAccessTokenIff(header: Option<string>, tokens: seq<Token>, users: seq<User>, now: int)
    ensures HandleAuthenticate(header, tokens, users, now) == Fail(InvalidAccessToken)
        <==> && CheckHeader(header).Presented?
             && forall j :: 0 <= j < |tokens| ==> !Matches(users, CheckHeader(header).credential, tokens[j])
  {
  }

  /** Check 5: the matched row's window has closed: strictly after CreatedAt + ExpiresIn. */
  lemma ExpiredIff(header: Option<string>, tokens: seq<Token>, users: seq<User>, now: int)
    ensures HandleAuthenticate(header, tokens, users, now) == Fail(TokenExpired)
        <==> && CheckHeader(header).Presented?
             && var k := FindByAccessToken(tokens, users, CheckHeader(header).credential);
                k.Some? && now > ExpiresAt(tokens[k.value])
  {
  }

  /** Every check passed: exactly four claims, naming the live owner of the matched row and that row. */
  lemma SuccessIff(header: Option<string>, tokens: seq<Token>, users: seq<User>, now: int)
    ensures var r := HandleAuthenticate(header, tokens, users, now);
      r.Success? <==> (CheckHeader(header).Presented?
        && var k := FindByAccessToken(tokens, users, CheckHeader(header).credential);
           k.Some? && now <= ExpiresAt(tokens[k.value]))
    ensures var r := HandleAuthenticate(header, tokens, users, now);
      r.Success? ==>
        var t := tokens[FindByAccessToken(tokens, users, CheckHeader(header).credential).value];
        var owner := DbSetExtensions.FindWithFilters(users, t.userId);
        owner.Some? && owner.value.id == t.userId && r.claims == Claims(owner.value, t)
  {
  }

  /** The four claims carry the owner's id and name and the token's id, each recoverable. */
  lemma ClaimsIdentify(owner: User, token: Token)
    ensures var c := Claims(owner, token);
      && c[0].claimType == NameIdentifierClaimType && Decimal.ParseInt(c[0].value) == owner.id
      && c[1].claimType == NameClaimType && c[1].value == owner.username
      && c[2].claimType == UserIdClaimType && Decimal.ParseInt(c[2].value) == owner.id
      && c[3].claimType == TokenIdClaimType && Decimal.ParseInt(c[3].value) == token.id
  {
    Decimal.IntRoundTrip(owner.id);
    Decimal.IntRoundTrip(token.id);
  }

  /** The checks before the lookup do not consult the tables or the clock. */
  lemma EarlyFailuresIgnoreStore(header: Option<string>, tokens: seq<Token>, users: seq<User>, now: int,
                                 tokens': seq<Token>, users': seq<User>, now': int)
    requires CheckHeader(header).HeaderRejected?
    ensures HandleAuthenticate(header, tokens, users, now) == HandleAuthenticate(header, tokens', users', now')
    ensures HandleAuthenticate(header, tokens, users, now).Fail?
    ensures HandleAuthenticate(header, tokens, users, now).failure != InvalidAccessToken
  {
  }

  // ---- The decision on a store that keeps its invariant ----

  /** With unique access tokens, "Bearer <token>" of row k selects exactly row k, if its owner is live. */
  lemma FindsOwnToken(tokens: seq<Token>, users: seq<User>, k: nat)
    requires forall i, j :: 0 <= i < j < |tokens| ==> tokens[i].accessToken != tokens[j].accessToken
    requires k < |tokens| && tokens[k].accessToken != "" && IsTrimmed(tokens[k].accessToken)
    requires DbSetExtensions.FindWithFilters(users, tokens[k].userId).Some?
    ensures CheckHeader(Some(BearerPrefix + tokens[k].accessToken)) == Presented(tokens[k].accessToken)
    ensures FindByAccessToken(tokens, users, tokens[k].accessToken) == Some(k)
  {
    SchemeThenValue(BearerPrefix, tokens[k].accessToken);
    assert Matches(users, tokens[k].accessToken, tokens[k]);
  }

  /**
   * A live owner's unexpired token, presented as "Bearer <token>", authenticates as that
   * owner and that token.
   */
  lemma AuthenticatesOwnToken(tokens: seq<Token>, users: seq<User>, k: nat, now: int)
    requires forall i, j :: 0 <= i < j < |tokens| ==> tokens[i].accessToken != tokens[j].accessToken
    requires forall i, j :: 0 <= i < j < |users| ==> users[i].id != users[j].id
    requires k < |tokens| && tokens[k].accessToken != "" && IsTrimmed(tokens[k].accessToken)
    requires DbSetExtensions.FindWithFilters(users, tokens[k].userId).Some?
    requires now <= ExpiresAt(tokens[k])
    ensures HandleAuthenticate(Some(BearerPrefix + tokens[k].accessToken), tokens, users, now)
         == Success(Claims(DbSetExtensions.FindWithFilters(users, tokens[k].userId).value, tokens[k]))
  {
    SchemeThenValue(BearerPrefix, tokens[k].accessToken);
    FindsOwnToken(tokens, users, k);
  }

  /** The expiry boundary: at CreatedAt + ExpiresIn the token still works; one millisecond later it does not. */
  lemma ExpiryBoundary(tokens: seq<Token>, users: seq<User>, k: nat)
    requires forall i, j :: 0 <= i < j < |tokens| ==> tokens[i].accessToken != tokens[j].accessToken
    requires k < |tokens| && tokens[k].accessToken != "" && IsTrimmed(tokens[k].accessToken)
    requires DbSetExtensions.FindWithFilters(users, tokens[k].userId).Some?
    ensures HandleAuthenticate(Some(BearerPrefix + tokens[k].accessToken), tokens, users, ExpiresAt(tokens[k])).Success?
    ensures HandleAuthenticate(Some(BearerPrefix + tokens[k].accessToken), tokens, users, ExpiresAt(tokens[k]) + 1)
         == Fail(TokenExpired)
  {
    SchemeThenValue(BearerPrefix, tokens[k].accessToken);
    FindsOwnToken(tokens, users, k);
  }

  /** A credential that no row carries any more fails as an invalid access token, at any time. */
  lemma UnknownTokenRejected(tokens: seq<Token>, users: seq<User>, key: string, now: int)
    requires key != "" && IsTrimmed(key)
    requires forall j :: 0 <= j < |tokens| ==> tokens[j].accessToken != key
    ensures HandleAuthenticate(Some(BearerPrefix + key), tokens, users, now) == Fail(InvalidAccessToken)
  {
    SchemeThenValue(BearerPrefix, key);
  }

  /** Soft-deleting the owner revokes its tokens: they no longer authenticate. */
  lemma DeletedOwnerRejected(tokens: seq<Token>, users: seq<User>, k: nat, ownerIndex: nat, now: int, deletedAt: int)
    requires forall i, j :: 0 <= i < j < |tokens| ==> tokens[i].accessToken != tokens[j].accessToken
    requires forall i, j :: 0 <= i < j < |users| ==> users[i].id != users[j].id
    requires k < |tokens| && tokens[k].accessToken != "" && IsTrimmed(tokens[k].accessToken)
    requires ownerIndex < |users| && users[ownerIndex].id == tokens[k].userId
    ensures HandleAuthenticate(Some(BearerPrefix + tokens[k].accessToken), tokens,
                               users[ownerIndex := Data.SoftDeleted(users[ownerIndex], deletedAt)], now)
         == Fail(InvalidAccessToken)
  {
    var after := users[ownerIndex := Data.SoftDeleted(users[ownerIndex], deletedAt)];
    SchemeThenValue(BearerPrefix, tokens[k].accessToken);
    DbSetExtensions.SoftDeletedIsInvisible(users, ownerIndex, deletedAt);
    forall j | 0 <= j < |tokens| ensures !Matches(after, tokens[k].accessToken, tokens[j]) {
    }
  }
}
