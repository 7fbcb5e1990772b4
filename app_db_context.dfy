/**
 * The store: the Users set with its soft-delete query filter, the Tokens set, and the
 * save-time lifecycle discipline (insert stamps CreatedAt = UpdatedAt = now, a modification
 * that changes a value stamps UpdatedAt = now, removing a user becomes DeletedAt = now).
 * Each method is one SaveChanges commit; those that write a time stamp take it at a
 * caller-supplied `now` later than every earlier stamp.
 */
module Data {
  import opened Wrappers
  import opened Models
  import Linq

  /** The query filter of the Users set: a row is visible to queries while DeletedAt is null. */
  predicate QueryFilter(u: User) {
    u.deletedAt.None?
  }

  /** `context.Users` as queries see it: the live rows, in table order. */
  function LiveUsers(users: seq<User>): (r: seq<User>)
    ensures forall i :: 0 <= i < |r| ==> r[i] in users && QueryFilter(r[i])
    ensures forall i :: 0 <= i < |users| && QueryFilter(users[i]) ==> users[i] in r
    ensures forall i :: 0 <= i < |users| && QueryFilter(users[i]) ==> multiset(r)[users[i]] == multiset(users)[users[i]]
  {
    var r := Linq.Where(users, QueryFilter);
    assert forall i :: 0 <= i < |r| ==> r[i] in users by {
      forall i | 0 <= i < |r| ensures r[i] in users {
        assert r[i] in multiset(r);
      }
    }
    assert forall i :: 0 <= i < |users| && QueryFilter(users[i]) ==> users[i] in r by {
      forall i | 0 <= i < |users| && QueryFilter(users[i]) ensures users[i] in r {
        assert users[i] in multiset(users);
      }
    }
    r
  }

  /** The row as the store writes it on insert. */
  function Inserted(id: int, username: string, password: string, now: int): (r: User)
    ensures QueryFilter(r) && r.id == id && r.username == username && r.password == password
    ensures r.createdAt == r.updatedAt == now
  {
    User(id, username, password, now, now, None)
  }

  /**
   * The row after its tracked fields are assigned and the context is saved. Change
   * tracking marks the entity Modified, and so stamps UpdatedAt, only when a value
   * differs from the one read; assigning the same values leaves the row as it was.
   */
  function Modified(u: User, username: string, password: string, now: int): (r: User)
    ensures r.id == u.id && r.username == username && r.password == password
    ensures r.createdAt == u.createdAt && r.deletedAt == u.deletedAt
    ensures (username != u.username || password != u.password) ==> r.updatedAt == now
    ensures (username == u.username && password == u.password) ==> r == u
  {
    if username == u.username && password == u.password then u
    else u.(username := username, password := password, updatedAt := now)
  }

  /** The row after `Remove` is saved: still present, with DeletedAt stamped. */
  function SoftDeleted(u: User, now: int): (r: User)
    ensures !QueryFilter(r) && r.deletedAt == Some(now)
    ensures r.id == u.id && r.username == u.username && r.password == u.password
    ensures r.createdAt == u.createdAt && r.updatedAt == u.updatedAt
  {
    u.(deletedAt := Some(now))
  }

  /** The lifecycle invariant of one row, relative to the time of the latest commit. */
  ghost predicate StampsValid(u: User, clock: int) {
    && u.createdAt <= u.updatedAt <= clock
    && (u.deletedAt.Some? ==> u.updatedAt < u.deletedAt.value <= clock)
  }

  /** After insert: live, and CreatedAt equals UpdatedAt. */
  lemma InsertStamps(id: int, username: string, password: string, clock: int, now: int)
    requires now > clock
    ensures var u := Inserted(id, username, password, now);
      && StampsValid(u, now) && QueryFilter(u) && u.createdAt == u.updatedAt == now
      && u.username == username && u.password == password
  {
  }

  /**
   * After modifying a live row: new values, still live, and when a value changed,
   * UpdatedAt after CreatedAt.
   */
  lemma ModifyStamps(u: User, username: string, password: string, clock: int, now: int)
    requires StampsValid(u, clock) && QueryFilter(u) && now > clock
    ensures var m := Modified(u, username, password, now);
      && StampsValid(m, now) && QueryFilter(m)
      && m.username == username && m.password == password
      && m.id == u.id && m.createdAt == u.createdAt
      && ((username != u.username || password != u.password) ==> m.updatedAt > m.createdAt)
      && ((username == u.username && password == u.password) ==> m.updatedAt == u.updatedAt)
  {
  }

  /** After removing a live row: still a row, DeletedAt after both other stamps, which are unchanged. */
  lemma SoftDeleteStamps(u: User, clock: int, now: int)
    requires StampsValid(u, clock) && QueryFilter(u) && now > clock
    ensures var d := SoftDeleted(u, now);
      && StampsValid(d, now) && !QueryFilter(d)
      && d.deletedAt.value > d.createdAt && d.deletedAt.value > d.updatedAt
      && d.createdAt == u.createdAt && d.updatedAt == u.updatedAt
      && d.id == u.id && d.username == u.username && d.password == u.password
  {
  }

  /** Some user row, live or not, has this id: the foreign key of a token. */
  ghost predicate HasUser(users: seq<User>, id: int) {
    exists k :: 0 <= k < |users| && users[k].id == id
  }

  /** Users: ids below the counter and increasing, creation times increasing, stamps valid. */
  ghost predicate UsersValid(users: seq<User>, nextUserId: int, clock: int) {
    && (forall i :: 0 <= i < |users| ==> 1 <= users[i].id < nextUserId && StampsValid(users[i], clock))
    && (forall i, j :: 0 <= i < j < |users| ==> users[i].id < users[j].id && users[i].createdAt < users[j].createdAt)
  }

  /** Tokens: ids below the counter and increasing, owners present, token strings unique. */
  ghost predicate TokensValid(tokens: seq<Token>, users: seq<User>, nextTokenId: int, clock: int) {
    && (forall i :: 0 <= i < |tokens| ==>
          && 1 <= tokens[i].id < nextTokenId && tokens[i].createdAt <= clock
          && FitsColumns(tokens[i]) && HasUser(users, tokens[i].userId))
    && (forall i, j :: 0 <= i < j < |tokens| ==>
          && tokens[i].id < tokens[j].id
          && tokens[i].accessToken != tokens[j].accessToken
          && tokens[i].refreshToken != tokens[j].refreshToken)
  }

  /** The token table without row k (a hard remove). */
  function RemoveAt(s: seq<Token>, k: nat): (r: seq<Token>)
    requires k < |s|
    ensures |r| == |s| - 1
    ensures forall i :: 0 <= i < k ==> r[i] == s[i]
    ensures forall i :: k <= i < |r| ==> r[i] == s[i + 1]
  {
    s[..k] + s[k + 1..]
  }

  /** Removing an earlier row commutes with appending a new one. */
  lemma RemoveBeforeAppend(s: seq<Token>, k: nat, t: Token)
    requires k < |s|
    ensures RemoveAt(s + [t], k) == RemoveAt(s, k) + [t]
  {
    assert (s + [t])[..k] == s[..k];
    assert (s + [t])[k + 1..] == s[k + 1..] + [t];
  }

  /** Changing a row without changing its id keeps every foreign key satisfied. */
  lemma HasUserKept(users: seq<User>, users': seq<User>, id: int)
    requires |users| <= |users'|
    requires forall k :: 0 <= k < |users| ==> users'[k].id == users[k].id
    requires HasUser(users, id)
    ensures HasUser(users', id)
  {
    var k :| 0 <= k < |users| && users[k].id == id;
    assert users'[k].id == id;
  }

  lemma TokensValidKept(tokens: seq<Token>, users: seq<User>, users': seq<User>, n: int, clock: int, clock': int)
    requires TokensValid(tokens, users, n, clock) && clock <= clock'
    requires |users| <= |users'|
    requires forall k :: 0 <= k < |users| ==> users'[k].id == users[k].id
    ensures TokensValid(tokens, users', n, clock')
  {
    forall i | 0 <= i < |tokens| ensures HasUser(users', tokens[i].userId) {
      HasUserKept(users, users', tokens[i].userId);
    }
  }

  class AppDbContext {
    var users: seq<User>
    var tokens: seq<Token>
    var nextUserId: int   // the id the store assigns to the next inserted user
    var nextTokenId: int  // the id the store assigns to the next inserted token
    var clock: int        // the time of the latest commit

    ghost predicate Valid()
      reads this
    {
      && nextUserId >= 1 && nextTokenId >= 1
      && UsersValid(users, nextUserId, clock)
      && TokensValid(tokens, users, nextTokenId, clock)
    }

    /** An empty store; identities start at 1. */
    constructor (now: int)
      ensures Valid()
      ensures users == [] && tokens == [] && nextUserId == 1 && nextTokenId == 1 && clock == now
    {
      users, tokens := [], [];
      nextUserId, nextTokenId := 1, 1;
      clock := now;
    }

    /** Users.Add then SaveChanges: a new live row with the next id. */
    method AddUser(username: string, password: string, now: int) returns (u: User)
      requires Valid() && now > clock
      modifies this
      ensures Valid()
      ensures u == Inserted(old(nextUserId), username, password, now)
      ensures users == old(users) + [u] && nextUserId == old(nextUserId) + 1
      ensures tokens == old(tokens) && nextTokenId == old(nextTokenId) && clock == now
    {
      u := Inserted(nextUserId, username, password, now);
      ghost var before := users;
      users := users + [u];
      nextUserId := nextUserId + 1;
      clock := now;
      TokensValidKept(tokens, before, users, nextTokenId, old(clock), clock);
    }

    /** Assigning Username and Password on the tracked row k, then SaveChanges. */
    method SaveUserChanges(k: nat, username: string, password: string, now: int)
      requires Valid() && k < |users| && QueryFilter(users[k]) && now > clock
      modifies this
      ensures Valid()
      ensures users == old(users)[k := Modified(old(users[k]), username, password, now)]
      ensures tokens == old(tokens) && nextUserId == old(nextUserId) && nextTokenId == old(nextTokenId)
      ensures clock == now
    {
      ghost var before := users;
      ModifyStamps(users[k], username, password, clock, now);
      users := users[k := Modified(users[k], username, password, now)];
      clock := now;
      TokensValidKept(tokens, before, users, nextTokenId, old(clock), clock);
    }

    /** Users.Remove on the tracked row k, then SaveChanges: rewritten into a soft delete. */
    method RemoveUser(k: nat, now: int)
      requires Valid() && k < |users| && QueryFilter(users[k]) && now > clock
      modifies this
      ensures Valid()
      ensures users == old(users)[k := SoftDeleted(old(users[k]), now)]
      ensures tokens == old(tokens) && nextUserId == old(nextUserId) && nextTokenId == old(nextTokenId)
      ensures clock == now
    {
      ghost var before := users;
      SoftDeleteStamps(users[k], clock, now);
      users := users[k := SoftDeleted(users[k], now)];
      clock := now;
      TokensValidKept(tokens, before, users, nextTokenId, old(clock), clock);
    }

    /** Tokens.Add then SaveChanges: a new row with the next id, created now. */
    method AddToken(userId: int, accessToken: string, refreshToken: string, expiresIn: int, tokenType: string, now: int)
      returns (t: Token)
      requires Valid() && now > clock && HasUser(users, userId)
      requires FitsColumns(Token(nextTokenId, now, userId, accessToken, refreshToken, expiresIn, tokenType))
      requires forall i :: 0 <= i < |tokens| ==> tokens[i].accessToken != accessToken
      requires forall i :: 0 <= i < |tokens| ==> tokens[i].refreshToken != refreshToken
      modifies this
      ensures Valid()
      ensures t == Token(old(nextTokenId), now, userId, accessToken, refreshToken, expiresIn, tokenType)
      ensures tokens == old(tokens) + [t] && nextTokenId == old(nextTokenId) + 1
      ensures users == old(users) && nextUserId == old(nextUserId) && clock == now
    {
      t := Token(nextTokenId, now, userId, accessToken, refreshToken, expiresIn, tokenType);
      tokens := tokens + [t];
      nextTokenId := nextTokenId + 1;
      clock := now;
    }

    /** Tokens.Add of a new row and Tokens.Remove of row k, committed by one SaveChanges. */
    method ReplaceToken(k: nat, userId: int, accessToken: string, refreshToken: string, expiresIn: int,
                        tokenType: string, now: int)
      returns (t: Token)
      requires Valid() && now > clock && k < |tokens| && HasUser(users, userId)
      requires FitsColumns(Token(nextTokenId, now, userId, accessToken, refreshToken, expiresIn, tokenType))
      requires forall i :: 0 <= i < |tokens| ==> tokens[i].accessToken != accessToken
      requires forall i :: 0 <= i < |tokens| ==> tokens[i].refreshToken != refreshToken
      modifies this
      ensures Valid()
      ensures t == Token(old(nextTokenId), now, userId, accessToken, refreshToken, expiresIn, tokenType)
      ensures tokens == RemoveAt(old(tokens), k) + [t] && nextTokenId == old(nextTokenId) + 1
      ensures users == old(users) && nextUserId == old(nextUserId) && clock == now
    {
      ghost var before := tokens;
      t := AddToken(userId, accessToken, refreshToken, expiresIn, tokenType, now);
      RemoveBeforeAppend(before, k, t);
      RemoveToken(k);
    }

    /** Tokens.Remove then SaveChanges: the row is physically deleted. */
    method RemoveToken(k: nat)
      requires Valid() && k < |tokens|
      modifies this
      ensures Valid()
      ensures tokens == RemoveAt(old(tokens), k)
      ensures users == old(users) && nextUserId == old(nextUserId) && nextTokenId == old(nextTokenId)
      ensures clock == old(clock)
    {
      tokens := RemoveAt(tokens, k);
    }
  }
}
