/**
 * AuthController: login issues a token pair, logout hard-removes the row of an access
 * token, refresh rotates a refresh token into a new pair. Token strings come from a GUID
 * oracle the caller supplies; they are required to be fresh.
 */
module AuthController {
  import opened Wrappers
  import opened Models
  import opened AuthorizationHeader
  import opened Http
  import Data
  import DbSetExtensions
  import Linq
  import TokenAuthentication

  const InvalidCredentialsMessage: string := "Invalid username or password"
  const InvalidRefreshTokenMessage: string := "Invalid refresh token"

  /** Every issued pair is valid for 15 minutes, in milliseconds. */
  const SessionLength: int := 15 * 60 * 1000
  const BearerTokenType: string := "Bearer"

  predicate IsLowerHex(c: char) { ('0' <= c <= '9') || ('a' <= c <= 'f') }

  /** The text of Guid.NewGuid().ToString(): 32 lower-case hex digits grouped 8-4-4-4-12. */
  predicate IsGuidString(s: string) {
    |s| == 36 && forall i :: 0 <= i < |s| ==>
      if i == 8 || i == 13 || i == 18 || i == 23 then s[i] == '-' else IsLowerHex(s[i])
  }

  /** A GUID string fits the 500-character token columns and needs no trimming. */
  lemma GuidStringShape(s: string)
    requires IsGuidString(s)
    ensures 0 < |s| <= MaxTokenLength && IsTrimmed(s)
  {
    assert IsLowerHex(s[0]) && IsLowerHex(s[35]);
  }

  /** The oracle's strings are not carried by any existing row. */
  ghost predicate Unused(tokens: seq<Token>, accessToken: string, refreshToken: string) {
    forall i :: 0 <= i < |tokens| ==> tokens[i].accessToken != accessToken && tokens[i].refreshToken != refreshToken
  }

  /** The row login and refresh insert, before the store assigns Id and CreatedAt. */
  function NewSession(id: int, now: int, userId: int, accessToken: string, refreshToken: string): (t: Token)
    ensures t.userId == userId && t.accessToken == accessToken && t.refreshToken == refreshToken
    ensures t.expiresIn == 900000 && t.tokenType == "Bearer"
  {
    Token(id, now, userId, accessToken, refreshToken, SessionLength, BearerTokenType)
  }

  /** An issued row satisfies the Token record's column constraints. */
  lemma NewSessionFitsColumns(id: int, now: int, userId: int, accessToken: string, refreshToken: string)
    requires IsGuidString(accessToken) && IsGuidString(refreshToken)
    ensures FitsColumns(NewSession(id, now, userId, accessToken, refreshToken))
  {
    GuidStringShape(accessToken);
    GuidStringShape(refreshToken);
  }

  /** The body of a login or refresh: the owner's id and name, never the password, and the row's token fields. */
  function SessionResponse(owner: User, t: Token): (r: LoginResponse)
    ensures r.user.id == owner.id && r.user.username == owner.username
    ensures r.accessToken == t.accessToken && r.refreshToken == t.refreshToken
    ensures r.expiresIn == t.expiresIn && r.tokenType == t.tokenType
  {
    LoginResponse(ToResponse(owner), t.accessToken, t.refreshToken, t.expiresIn, t.tokenType)
  }

  // ---- Login ----

  /** Row k is the one `Users.FirstOrDefault(u => u.Username == username)` returns (live rows only). */
  ghost predicate FirstLiveNamed(users: seq<User>, username: string, k: int) {
    && 0 <= k < |users| && Data.QueryFilter(users[k]) && users[k].username == username
    && forall j :: 0 <= j < k ==> !(Data.QueryFilter(users[j]) && users[j].username == username)
  }

  /**
   * The user login accepts, or None. An unknown username and a wrong password are not told
   * apart: both give None, hence the same 401 message.
   */
  function CheckCredentials(users: seq<User>, username: string, password: string): (r: Option<nat>)
    ensures r.Some? ==> FirstLiveNamed(users, username, r.value) && users[r.value].password == password
    ensures r.None? ==> forall k {:trigger FirstLiveNamed(users, username, k)} ::
      FirstLiveNamed(users, username, k) ==> users[k].password != password
    ensures (forall j :: 0 <= j < |users| ==> !(Data.QueryFilter(users[j]) && users[j].username == username))
      ==> r.None?
  {
    match Linq.FirstIndex(users, (u: User) => Data.QueryFilter(u) && u.username == username)
    case None => None
    case Some(k) => if users[k].password != password then None else Some(k)
  }

  /** POST /auth/login. */
  method Login(db: Data.AppDbContext, username: string, password: string,
               accessToken: string, refreshToken: string, now: int)
    returns (r: ActionResult<LoginResponse>)
    requires db.Valid() && now > db.clock
    requires IsGuidString(accessToken) && IsGuidString(refreshToken)
    requires Unused(db.tokens, accessToken, refreshToken)
    modifies db
    ensures db.Valid()
    ensures db.users == old(db.users) && db.nextUserId == old(db.nextUserId)
    ensures CheckCredentials(old(db.users), username, password).None? ==>
      && r == Unauthorized(InvalidCredentialsMessage)
      && db.tokens == old(db.tokens) && db.nextTokenId == old(db.nextTokenId) && db.clock == old(db.clock)
    ensures CheckCredentials(old(db.users), username, password).Some? ==>
      var user := old(db.users)[CheckCredentials(old(db.users), username, password).value];
      var t := NewSession(old(db.nextTokenId), now, user.id, accessToken, refreshToken);
      && db.tokens == old(db.tokens) + [t] && db.nextTokenId == old(db.nextTokenId) + 1 && db.clock == now
      && r == Ok(SessionResponse(user, t))
  {
    var found := CheckCredentials(db.users, username, password);
    if found.None? {
      return Unauthorized(InvalidCredentialsMessage);
    }
    var user := db.users[found.value];
    NewSessionFitsColumns(db.nextTokenId, now, user.id, accessToken, refreshToken);
    var t := db.AddToken(user.id, accessToken, refreshToken, SessionLength, BearerTokenType, now);
    r := Ok(SessionResponse(user, t));
  }

  // ---- Logout and refresh: a token row named by the Authorization header ----

  datatype TokenField = AccessTokenField | RefreshTokenField

  function FieldOf(t: Token, f: TokenField): string {
    match f
    case AccessTokenField => t.accessToken
    case RefreshTokenField => t.refreshToken
  }

  /** The row an endpoint acts on, or the message of its 400 response. */
  datatype Lookup = Found(index: nat) | Rejected(message: string)

  /** Header checks in order (empty, scheme), then `FirstOrDefault` on the chosen column. */
  function LookupByHeader(header: Option<string>, scheme: string, field: TokenField, notFound: string,
                          tokens: seq<Token>): (r: Lookup)
    ensures HeaderText(header) == "" ==> r == Rejected(TokenAuthentication.MissingAuthorizationHeaderMessage)
    ensures HeaderText(header) != "" && !StartsWithIgnoreCase(HeaderText(header), scheme)
        ==> r == Rejected(TokenAuthentication.InvalidHeaderFormatMessage)
    ensures Parse(HeaderText(header), scheme).Credential? ==>
      var v := Parse(HeaderText(header), scheme).value;
      r == Rejected(notFound) <==> forall j :: 0 <= j < |tokens| ==> FieldOf(tokens[j], field) != v
    ensures Parse(HeaderText(header), scheme).Credential? ==> r.Found? || r == Rejected(notFound)
    ensures r.Rejected? ==> r.message in {TokenAuthentication.MissingAuthorizationHeaderMessage,
                                          TokenAuthentication.InvalidHeaderFormatMessage, notFound}
    ensures r.Found? ==>
      && r.index < |tokens|
      && Parse(HeaderText(header), scheme) == Credential(FieldOf(tokens[r.index], field))
      && forall j :: 0 <= j < r.index ==> FieldOf(tokens[j], field) != FieldOf(tokens[r.index], field)
  {
    match Parse(HeaderText(header), scheme)
    case EmptyHeader => Rejected(TokenAuthentication.MissingAuthorizationHeaderMessage)
    case WrongScheme => Rejected(TokenAuthentication.InvalidHeaderFormatMessage)
    case Credential(v) =>
      match Linq.FirstIndex(tokens, (t: Token) => FieldOf(t, field) == v)
      case None => Rejected(notFound)
      case Some(k) => Found(k)
  }

  /** What logout acts on: the first row whose AccessToken is the trimmed "Bearer " credential. */
  function LogoutLookup(header: Option<string>, tokens: seq<Token>): (r: Lookup)
    ensures r == Rejected(TokenAuthentication.MissingAuthorizationHeaderMessage) <==> HeaderText(header) == ""
    ensures r == Rejected(TokenAuthentication.InvalidHeaderFormatMessage)
        <==> HeaderText(header) != "" && !StartsWithIgnoreCase(HeaderText(header), BearerPrefix)
    ensures r == Rejected(TokenAuthentication.InvalidAccessTokenMessage)
        <==> && Parse(HeaderText(header), BearerPrefix).Credential?
             && forall j :: 0 <= j < |tokens| ==> tokens[j].accessToken != Parse(HeaderText(header), BearerPrefix).value
    ensures r.Rejected? ==> r.message in {TokenAuthentication.MissingAuthorizationHeaderMessage,
                                          TokenAuthentication.InvalidHeaderFormatMessage,
                                          TokenAuthentication.InvalidAccessTokenMessage}
    ensures r.Found? ==>
      && r.index < |tokens|
      && Parse(HeaderText(header), BearerPrefix) == Credential(tokens[r.index].accessToken)
      && forall j :: 0 <= j < r.index ==> tokens[j].accessToken != tokens[r.index].accessToken
  {
    LookupByHeader(header, BearerPrefix, AccessTokenField, TokenAuthentication.InvalidAccessTokenMessage, tokens)
  }

  /** What refresh acts on: the first row whose RefreshToken is the trimmed "Refresh " credential. */
  function RefreshLookup(header: Option<string>, tokens: seq<Token>): (r: Lookup)
    ensures r == Rejected(TokenAuthentication.MissingAuthorizationHeaderMessage) <==> HeaderText(header) == ""
    ensures r == Rejected(TokenAuthentication.InvalidHeaderFormatMessage)
        <==> HeaderText(header) != "" && !StartsWithIgnoreCase(HeaderText(header), RefreshPrefix)
    ensures r == Rejected(InvalidRefreshTokenMessage)
        <==> && Parse(HeaderText(header), RefreshPrefix).Credential?
             && forall j :: 0 <= j < |tokens| ==> tokens[j].refreshToken != Parse(HeaderText(header), RefreshPrefix).value
    ensures r.Rejected? ==> r.message in {TokenAuthentication.MissingAuthorizationHeaderMessage,
                                          TokenAuthentication.InvalidHeaderFormatMessage,
                                          InvalidRefreshTokenMessage}
    ensures r.Found? ==>
      && r.index < |tokens|
      && Parse(HeaderText(header), RefreshPrefix) == Credential(tokens[r.index].refreshToken)
      && forall j :: 0 <= j < r.index ==> tokens[j].refreshToken != tokens[r.index].refreshToken
  {
    LookupByHeader(header, RefreshPrefix, RefreshTokenField, InvalidRefreshTokenMessage, tokens)
  }

  /** The header "scheme + v" carries the credential v when v is trimmed. */
  lemma HeaderCredential(scheme: string, v: string)
    requires |scheme| > 0 && IsTrimmed(v)
    ensures Parse(HeaderText(Some(scheme + v)), scheme) == Credential(v)
  {
    SchemeThenValue(scheme, v);
  }

  /** A header whose credential is row k's value, carried by no earlier row, selects row k. */
  lemma LookupFindsRow(header: Option<string>, scheme: string, field: TokenField, notFound: string,
                       tokens: seq<Token>, k: nat)
    requires k < |tokens| && Parse(HeaderText(header), scheme) == Credential(FieldOf(tokens[k], field))
    requires forall j :: 0 <= j < k ==> FieldOf(tokens[j], field) != FieldOf(tokens[k], field)
    ensures LookupByHeader(header, scheme, field, notFound, tokens) == Found(k)
  {
    var v := FieldOf(tokens[k], field);
    var r := LookupByHeader(header, scheme, field, notFound, tokens);
    assert r.Found? by {
      assert !(forall j :: 0 <= j < |tokens| ==> FieldOf(tokens[j], field) != v);
    }
    assert FieldOf(tokens[r.index], field) == v;
  }

  /** With unique access tokens, "Bearer " and row k's trimmed access token make logout act on row k. */
  lemma LogoutFindsOwnToken(tokens: seq<Token>, k: nat)
    requires forall i, j :: 0 <= i < j < |tokens| ==> tokens[i].accessToken != tokens[j].accessToken
    requires k < |tokens| && IsTrimmed(tokens[k].accessToken)
    ensures LogoutLookup(Some(BearerPrefix + tokens[k].accessToken), tokens) == Found(k)
  {
    var h := Some(BearerPrefix + tokens[k].accessToken);
    HeaderCredential(BearerPrefix, tokens[k].accessToken);
    assert forall j :: 0 <= j < k ==> FieldOf(tokens[j], AccessTokenField) != FieldOf(tokens[k], AccessTokenField) by {
      forall j | 0 <= j < k ensures FieldOf(tokens[j], AccessTokenField) != FieldOf(tokens[k], AccessTokenField) {
        assert tokens[j].accessToken != tokens[k].accessToken;
      }
    }
    LookupFindsRow(h, BearerPrefix, AccessTokenField, TokenAuthentication.InvalidAccessTokenMessage, tokens, k);
  }

  /** With unique refresh tokens, "Refresh " and row k's trimmed refresh token make refresh act on row k. */
  lemma RefreshFindsOwnToken(tokens: seq<Token>, k: nat)
    requires forall i, j :: 0 <= i < j < |tokens| ==> tokens[i].refreshToken != tokens[j].refreshToken
    requires k < |tokens| && IsTrimmed(tokens[k].refreshToken)
    ensures RefreshLookup(Some(RefreshPrefix + tokens[k].refreshToken), tokens) == Found(k)
  {
    var h := Some(RefreshPrefix + tokens[k].refreshToken);
    HeaderCredential(RefreshPrefix, tokens[k].refreshToken);
    assert forall j :: 0 <= j < k ==> FieldOf(tokens[j], RefreshTokenField) != FieldOf(tokens[k], RefreshTokenField) by {
      forall j | 0 <= j < k ensures FieldOf(tokens[j], RefreshTokenField) != FieldOf(tokens[k], RefreshTokenField) {
        assert tokens[j].refreshToken != tokens[k].refreshToken;
      }
    }
    LookupFindsRow(h, RefreshPrefix, RefreshTokenField, InvalidRefreshTokenMessage, tokens, k);
  }

  /** POST /auth/logout: no expiry check; the matched row is physically removed. */
  method Logout(db: Data.AppDbContext, header: Option<string>) returns (r: ActionResult<()>)
    requires db.Valid()
    modifies db
    ensures db.Valid()
    ensures db.users == old(db.users) && db.nextUserId == old(db.nextUserId)
    ensures db.nextTokenId == old(db.nextTokenId) && db.clock == old(db.clock)
    ensures LogoutLookup(header, old(db.tokens)).Rejected? ==>
      r == BadRequest(LogoutLookup(header, old(db.tokens)).message) && db.tokens == old(db.tokens)
    ensures LogoutLookup(header, old(db.tokens)).Found? ==>
      r == Ok(()) && db.tokens == Data.RemoveAt(old(db.tokens), LogoutLookup(header, old(db.tokens)).index)
  {
    var lookup := LogoutLookup(header, db.tokens);
    if lookup.Rejected? {
      return BadRequest(lookup.message);
    }
    db.RemoveToken(lookup.index);
    r := Ok(());
  }

  /** The owner a token's `User` navigation refers to: the user row with its UserId, live or not. */
  function Owner(users: seq<User>, userId: int): (u: User)
    requires Data.HasUser(users, userId)
    ensures u in users && u.id == userId
  {
    var k := Linq.FirstIndex(users, (u: User) => u.id == userId);
    assert k.Some?;
    users[k.value]
  }

  /** POST /auth/refresh: no expiry check; a new pair for the same owner replaces the old row. */
  method Refresh(db: Data.AppDbContext, header: Option<string>, accessToken: string, refreshToken: string, now: int)
    returns (r: ActionResult<LoginResponse>)
    requires db.Valid() && now > db.clock
    requires IsGuidString(accessToken) && IsGuidString(refreshToken)
    requires Unused(db.tokens, accessToken, refreshToken)
    modifies db
    ensures db.Valid()
    ensures db.users == old(db.users) && db.nextUserId == old(db.nextUserId)
    ensures RefreshLookup(header, old(db.tokens)).Rejected? ==>
      && r == BadRequest(RefreshLookup(header, old(db.tokens)).message)
      && db.tokens == old(db.tokens) && db.nextTokenId == old(db.nextTokenId) && db.clock == old(db.clock)
    ensures RefreshLookup(header, old(db.tokens)).Found? ==>
      var k := RefreshLookup(header, old(db.tokens)).index;
      var previous := old(db.tokens)[k];
      var t := NewSession(old(db.nextTokenId), now, previous.userId, accessToken, refreshToken);
      && db.tokens == Data.RemoveAt(old(db.tokens), k) + [t]
      && |db.tokens| == |old(db.tokens)|
      && db.nextTokenId == old(db.nextTokenId) + 1 && db.clock == now
      && r == Ok(SessionResponse(Owner(old(db.users), previous.userId), t))
  {
    var lookup := RefreshLookup(header, db.tokens);
    if lookup.Rejected? {
      return BadRequest(lookup.message);
    }
    var k := lookup.index;
    var previous := db.tokens[k];
    var owner := Owner(db.users, previous.userId);
    NewSessionFitsColumns(db.nextTokenId, now, previous.userId, accessToken, refreshToken);
    var t := db.ReplaceToken(k, previous.userId, accessToken, refreshToken, SessionLength, BearerTokenType, now);
    r := Ok(SessionResponse(owner, t));
  }

  // ---- What the three endpoints do to later requests ----

  /** With unique access tokens, no row but k carries row k's access token. */
  lemma AccessTokenGoneAfterRemove(tokens: seq<Token>, k: nat)
    requires forall i, j :: 0 <= i < j < |tokens| ==> tokens[i].accessToken != tokens[j].accessToken
    requires k < |tokens|
    ensures forall j :: 0 <= j < |Data.RemoveAt(tokens, k)| ==> Data.RemoveAt(tokens, k)[j].accessToken != tokens[k].accessToken
  {
    var r := Data.RemoveAt(tokens, k);
    forall j | 0 <= j < |r| ensures r[j].accessToken != tokens[k].accessToken {
      if j < k { assert r[j] == tokens[j]; } else { assert r[j] == tokens[j + 1]; }
    }
  }

  lemma RefreshTokenGoneAfterRemove(tokens: seq<Token>, k: nat)
    requires forall i, j :: 0 <= i < j < |tokens| ==> tokens[i].refreshToken != tokens[j].refreshToken
    requires k < |tokens|
    ensures forall j :: 0 <= j < |Data.RemoveAt(tokens, k)| ==> Data.RemoveAt(tokens, k)[j].refreshToken != tokens[k].refreshToken
  {
    var r := Data.RemoveAt(tokens, k);
    forall j | 0 <= j < |r| ensures r[j].refreshToken != tokens[k].refreshToken {
      if j < k { assert r[j] == tokens[j]; } else { assert r[j] == tokens[j + 1]; }
    }
  }

  /**
   * After logout, the same Authorization header no longer authenticates: the credential it
   * carries has left the table with its row.
   */
  lemma NoAuthenticationAfterLogout(header: Option<string>, tokens: seq<Token>, users: seq<User>, now: int)
    requires forall i, j :: 0 <= i < j < |tokens| ==> tokens[i].accessToken != tokens[j].accessToken
    requires LogoutLookup(header, tokens).Found?
    ensures var after := Data.RemoveAt(tokens, LogoutLookup(header, tokens).index);
      && TokenAuthentication.HandleAuthenticate(header, after, users, now).Fail?
      && (tokens[LogoutLookup(header, tokens).index].accessToken != "" ==>
           TokenAuthentication.HandleAuthenticate(header, after, users, now)
             == TokenAuthentication.Fail(TokenAuthentication.InvalidAccessToken))
  {
    var k := LogoutLookup(header, tokens).index;
    AccessTokenGoneAfterRemove(tokens, k);
  }

  /** Logging out twice: the second attempt is a 400 "Invalid access token". */
  lemma SecondLogoutRejected(header: Option<string>, tokens: seq<Token>)
    requires forall i, j :: 0 <= i < j < |tokens| ==> tokens[i].accessToken != tokens[j].accessToken
    requires LogoutLookup(header, tokens).Found?
    ensures LogoutLookup(header, Data.RemoveAt(tokens, LogoutLookup(header, tokens).index))
         == Rejected(TokenAuthentication.InvalidAccessTokenMessage)
  {
    AccessTokenGoneAfterRemove(tokens, LogoutLookup(header, tokens).index);
  }

  /** The table refresh leaves behind: row k replaced by the new row at the end. */
  function Rotated(tokens: seq<Token>, k: nat, t: Token): (r: seq<Token>)
    requires k < |tokens|
    ensures |r| == |tokens| && r[|r| - 1] == t
    ensures forall i :: 0 <= i < k ==> r[i] == tokens[i]
    ensures forall i :: k <= i < |r| - 1 ==> r[i] == tokens[i + 1]
  {
    Data.RemoveAt(tokens, k) + [t]
  }

  /** Refresh revokes the old pair: its access token no longer authenticates ... */
  lemma RefreshRevokesAccessToken(tokens: seq<Token>, users: seq<User>, k: nat, t: Token, now: int)
    requires forall i, j :: 0 <= i < j < |tokens| ==> tokens[i].accessToken != tokens[j].accessToken
    requires k < |tokens| && tokens[k].accessToken != "" && IsTrimmed(tokens[k].accessToken)
    requires t.accessToken != tokens[k].accessToken
    ensures TokenAuthentication.HandleAuthenticate(Some(BearerPrefix + tokens[k].accessToken), Rotated(tokens, k, t), users, now)
         == TokenAuthentication.Fail(TokenAuthentication.InvalidAccessToken)
  {
    var after := Rotated(tokens, k, t);
    AccessTokenGoneAfterRemove(tokens, k);
    assert forall j :: 0 <= j < |after| ==> after[j].accessToken != tokens[k].accessToken by {
      forall j | 0 <= j < |after| ensures after[j].accessToken != tokens[k].accessToken {
        if j < |after| - 1 { assert after[j] == Data.RemoveAt(tokens, k)[j]; }
      }
    }
    TokenAuthentication.UnknownTokenRejected(after, users, tokens[k].accessToken, now);
  }

  /** ... and its refresh token cannot be used a second time. */
  lemma RefreshTokenSingleUse(tokens: seq<Token>, k: nat, t: Token)
    requires forall i, j :: 0 <= i < j < |tokens| ==> tokens[i].refreshToken != tokens[j].refreshToken
    requires k < |tokens| && tokens[k].refreshToken != "" && IsTrimmed(tokens[k].refreshToken)
    requires t.refreshToken != tokens[k].refreshToken
    ensures RefreshLookup(Some(RefreshPrefix + tokens[k].refreshToken), Rotated(tokens, k, t))
         == Rejected(InvalidRefreshTokenMessage)
  {
    var after := Rotated(tokens, k, t);
    RefreshTokenGoneAfterRemove(tokens, k);
    assert forall j :: 0 <= j < |after| ==> after[j].refreshToken != tokens[k].refreshToken by {
      forall j | 0 <= j < |after| ensures after[j].refreshToken != tokens[k].refreshToken {
        if j < |after| - 1 { assert after[j] == Data.RemoveAt(tokens, k)[j]; }
      }
    }
    SchemeThenValue(RefreshPrefix, tokens[k].refreshToken);
  }

  /**
   * A freshly issued row (login appends it; refresh appends it after removing the old one)
   * authenticates as its live owner for the whole session and is rejected after it.
   */
  lemma IssuedTokenAuthenticates(tokens: seq<Token>, users: seq<User>, t: Token, now: int)
    requires forall i, j :: 0 <= i < j < |tokens| ==> tokens[i].accessToken != tokens[j].accessToken
    requires forall i, j :: 0 <= i < j < |users| ==> users[i].id != users[j].id
    requires forall i :: 0 <= i < |tokens| ==> tokens[i].accessToken != t.accessToken
    requires IsGuidString(t.accessToken)
    requires DbSetExtensions.FindWithFilters(users, t.userId).Some?
    ensures now <= ExpiresAt(t) ==>
      TokenAuthentication.HandleAuthenticate(Some(BearerPrefix + t.accessToken), tokens + [t], users, now)
        == TokenAuthentication.Success(TokenAuthentication.Claims(DbSetExtensions.FindWithFilters(users, t.userId).value, t))
    ensures now > ExpiresAt(t) ==>
      TokenAuthentication.HandleAuthenticate(Some(BearerPrefix + t.accessToken), tokens + [t], users, now)
        == TokenAuthentication.Fail(TokenAuthentication.TokenExpired)
  {
    var after := tokens + [t];
    var k := |tokens|;
    GuidStringShape(t.accessToken);
    assert after[k] == t;
    assert forall i, j :: 0 <= i < j < |after| ==> after[i].accessToken != after[j].accessToken by {
      forall i, j | 0 <= i < j < |after| ensures after[i].accessToken != after[j].accessToken {
        assert after[i] == tokens[i];
        if j < k { assert after[j] == tokens[j]; }
      }
    }
    TokenAuthentication.FindsOwnToken(after, users, k);
    if now <= ExpiresAt(t) {
      TokenAuthentication.AuthenticatesOwnToken(after, users, k, now);
    } else {
      TokenAuthentication.ExpiredIff(Some(BearerPrefix + t.accessToken), after, users, now);
    }
  }

  // ---- Refresh as written: the owner navigation of a row loaded without Include ----

  /** A response, or the NullReferenceException (a 500) raised while building one. */
  datatype Outcome<T> = Responded(result: ActionResult<T>) | NullReference

  /**
   * RefreshAsync as written, in a request whose context already tracks the users with ids in
   * `tracked`. The row is loaded without Include, so `token.User` is set only when its owner
   * is tracked; otherwise the response's `token.User.Id` dereferences null. The failure comes
   * after SaveChanges, so the rotation is committed either way.
   */
  function RefreshResponseAsWritten(header: Option<string>, tokens: seq<Token>, users: seq<User>, tracked: set<int>,
                                    accessToken: string, refreshToken: string, id: int, now: int)
    : (r: Outcome<LoginResponse>)
    requires forall i :: 0 <= i < |tokens| ==> Data.HasUser(users, tokens[i].userId)
    ensures RefreshLookup(header, tokens).Rejected? ==> r == Responded(BadRequest(RefreshLookup(header, tokens).message))
    ensures r == NullReference <==>
      RefreshLookup(header, tokens).Found? && tokens[RefreshLookup(header, tokens).index].userId !in tracked
  {
    match RefreshLookup(header, tokens)
    case Rejected(message) => Responded(BadRequest(message))
    case Found(k) =>
      if tokens[k].userId in tracked then
        Responded(Ok(SessionResponse(Owner(users, tokens[k].userId), NewSession(id, now, tokens[k].userId, accessToken, refreshToken))))
      else NullReference
  }

  /**
   * In a fresh request context nothing is tracked, so every refresh that finds its row ends in
   * a 500 instead of the new pair — although the old row is already gone. The intended
   * response, the one Refresh returns, names the owner by the row's UserId.
   */
  lemma RefreshOnFreshContextFails(header: Option<string>, tokens: seq<Token>, users: seq<User>,
                                   accessToken: string, refreshToken: string, id: int, now: int)
    requires forall i :: 0 <= i < |tokens| ==> Data.HasUser(users, tokens[i].userId)
    requires RefreshLookup(header, tokens).Found?
    ensures RefreshResponseAsWritten(header, tokens, users, {}, accessToken, refreshToken, id, now) == NullReference
    ensures var t := tokens[RefreshLookup(header, tokens).index];
      RefreshResponseAsWritten(header, tokens, users, {t.userId}, accessToken, refreshToken, id, now)
        == Responded(Ok(SessionResponse(Owner(users, t.userId), NewSession(id, now, t.userId, accessToken, refreshToken))))
  {
  }
}
