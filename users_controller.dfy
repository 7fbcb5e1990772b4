/**
 * UsersController: the paged, creation-ordered listing of live users, lookup by id, and
 * create / update / soft-delete on the store. Listing and lookup only read the Users table;
 * the three writes are one commit each.
 */
module UsersController {
  import opened Wrappers
  import opened Models
  import opened Http
  import Data
  import DbSetExtensions
  import Linq
  import Paging

  /** The sort key of the listing. */
  function CreatedAt(u: User): int { u.createdAt }

  /** `Select(user => new UserResponse { Id, Username })` over a sequence of rows. */
  function Responses(users: seq<User>): (r: seq<UserResponse>)
    ensures |r| == |users|
    ensures forall i :: 0 <= i < |r| ==> r[i] == ToResponse(users[i])
  {
    seq(|users|, i requires 0 <= i < |users| => ToResponse(users[i]))
  }

  /** Each entry of the projected, ordered live rows is the response of a live row of the table. */
  lemma OrderedFromLive(users: seq<User>)
    ensures forall j :: 0 <= j < |Responses(Linq.OrderBy(Data.LiveUsers(users), CreatedAt))| ==>
      exists k :: 0 <= k < |users| && Data.QueryFilter(users[k])
        && Responses(Linq.OrderBy(Data.LiveUsers(users), CreatedAt))[j] == ToResponse(users[k])
  {
    var live := Data.LiveUsers(users);
    var ordered := Linq.OrderBy(live, CreatedAt);
    var listing := Responses(ordered);
    forall j | 0 <= j < |listing|
      ensures exists k :: 0 <= k < |users| && Data.QueryFilter(users[k]) && listing[j] == ToResponse(users[k])
    {
      assert ordered[j] in multiset(live);
      var m :| 0 <= m < |live| && live[m] == ordered[j];
      var k :| 0 <= k < |users| && users[k] == live[m];
      assert listing[j] == ToResponse(users[k]);
    }
  }

  /**
   * What the listing pages over: the live users ordered by CreatedAt, projected. There is
   * one entry per live user, and every entry is the response of a live user.
   */
  function UserQuery(users: seq<User>): (r: seq<UserResponse>)
    ensures |r| == |Data.LiveUsers(users)|
    ensures forall j :: 0 <= j < |r| ==>
      exists k :: 0 <= k < |users| && Data.QueryFilter(users[k]) && r[j] == ToResponse(users[k])
  {
    OrderedFromLive(users);
    Responses(Linq.OrderBy(Data.LiveUsers(users), CreatedAt))
  }

  /**
   * GET /api/users?page&pageSize (defaults 1 and 10). TotalItems counts the live users;
   * each item is the response of a live user.
   */
  function GetUsers(users: seq<User>, page: int, pageSize: int): (r: ActionResult<Paging.PagedResponse<UserResponse>>)
    ensures r.Ok? && r.value == Paging.ToPagedResult(UserQuery(users), page, pageSize)
    ensures r.value.page == page && r.value.pageSize == pageSize
    ensures r.value.totalItems == |Data.LiveUsers(users)|
    ensures forall i :: 0 <= i < |r.value.items| ==>
      exists k :: 0 <= k < |users| && Data.QueryFilter(users[k]) && r.value.items[i] == ToResponse(users[k])
  {
    PageDrawnFromLive(users, page, pageSize);
    Ok(Paging.ToPagedResult(UserQuery(users), page, pageSize))
  }

  /** Each item of a page of the listing is the response of a live user. */
  lemma PageDrawnFromLive(users: seq<User>, page: int, pageSize: int)
    ensures var items := Paging.ToPagedResult(UserQuery(users), page, pageSize).items;
      forall i :: 0 <= i < |items| ==>
        exists k :: 0 <= k < |users| && Data.QueryFilter(users[k]) && items[i] == ToResponse(users[k])
  {
    var q := UserQuery(users);
    var items := Paging.ToPagedResult(q, page, pageSize).items;
    forall i | 0 <= i < |items|
      ensures exists k :: 0 <= k < |users| && Data.QueryFilter(users[k]) && items[i] == ToResponse(users[k])
    {
      var j := Paging.Max(0, Paging.Offset(page, pageSize)) + i;
      assert items[i] == q[j];
    }
  }

  /** Rows inserted by the store are ordered by CreatedAt already, so the listing is the live rows in table order. */
  lemma UserQueryIsTableOrder(users: seq<User>, nextUserId: int, clock: int)
    requires Data.UsersValid(users, nextUserId, clock)
    ensures UserQuery(users) == Responses(Data.LiveUsers(users))
  {
    assert Linq.SortedBy(users, CreatedAt);
    Linq.WhereSorted(users, Data.QueryFilter, CreatedAt);
    Linq.OrderByOfSorted(Data.LiveUsers(users), CreatedAt);
  }

  /** On the store's own table, a page of the listing is a run of the live rows in table order. */
  lemma StoredPageInTableOrder(users: seq<User>, nextUserId: int, clock: int, page: int, pageSize: int)
    requires Data.UsersValid(users, nextUserId, clock)
    ensures var items := GetUsers(users, page, pageSize).value.items;
      forall i :: 0 <= i < |items| ==>
        items[i] == ToResponse(Data.LiveUsers(users)[Paging.Max(0, Paging.Offset(page, pageSize)) + i])
  {
    UserQueryIsTableOrder(users, nextUserId, clock);
  }

  /** Every live user appears in the listing. */
  lemma EveryLiveUserListed(users: seq<User>, k: nat)
    requires k < |users| && Data.QueryFilter(users[k])
    ensures ToResponse(users[k]) in UserQuery(users)
  {
    var ordered := Linq.OrderBy(Data.LiveUsers(users), CreatedAt);
    Linq.OrderBySorted(Data.LiveUsers(users), CreatedAt);
    assert users[k] in Data.LiveUsers(users);
    assert users[k] in multiset(ordered);
    var j :| 0 <= j < |ordered| && ordered[j] == users[k];
    assert UserQuery(users)[j] == ToResponse(users[k]);
  }

  /**
   * Reading pages 1..TotalPages of the listing at any positive page size yields the whole
   * listing, in order: no entry of the listing is skipped or repeated across pages.
   */
  lemma PagesCoverListing(users: seq<User>, pageSize: int)
    requires pageSize > 0
    ensures var n := GetUsers(users, 1, pageSize).value.TotalPages();
      n >= 0 && Paging.PagesUpTo(UserQuery(users), pageSize, n) == UserQuery(users)
  {
    Paging.AllPagesReconstructQuery(UserQuery(users), pageSize);
  }

  /** GET /api/users/{id}: the live user with that id, else 404. */
  function GetUser(users: seq<User>, id: int): (r: ActionResult<UserResponse>)
    ensures r.NotFound? || r.Ok?
    ensures r.NotFound? <==> forall j :: 0 <= j < |users| ==> !(Data.QueryFilter(users[j]) && users[j].id == id)
    ensures r.Ok? ==>
      && r.value.id == id
      && exists k :: 0 <= k < |users| && Data.QueryFilter(users[k]) && r.value == ToResponse(users[k])
  {
    match DbSetExtensions.LiveIndex(users, id)
    case None => NotFound
    case Some(k) => Ok(ToResponse(users[k]))
  }

  /** With unique ids, a live row is found by its id with its current name. */
  lemma GetUserFindsLiveRow(users: seq<User>, k: nat)
    requires forall i, j :: 0 <= i < j < |users| ==> users[i].id != users[j].id
    requires k < |users| && Data.QueryFilter(users[k])
    ensures GetUser(users, users[k].id) == Ok(UserResponse(users[k].id, users[k].username))
  {
    DbSetExtensions.FindsLiveRow(users, k);
  }

  /** A user row appended with a new id is then found by that id. */
  lemma GetUserAfterInsert(users: seq<User>, u: User)
    requires forall i :: 0 <= i < |users| ==> users[i].id != u.id
    requires Data.QueryFilter(u)
    ensures GetUser(users + [u], u.id) == Ok(ToResponse(u))
  {
    var after := users + [u];
    assert after[|users|] == u;
    assert forall j :: 0 <= j < |users| ==> !(Data.QueryFilter(after[j]) && after[j].id == u.id);
  }

  /** Once row k is soft-deleted, looking it up is 404 — and neither update nor delete can find it again. */
  lemma GetUserAfterDelete(users: seq<User>, k: nat, now: int)
    requires forall i, j :: 0 <= i < j < |users| ==> users[i].id != users[j].id
    requires k < |users|
    ensures GetUser(users[k := Data.SoftDeleted(users[k], now)], users[k].id) == NotFound
    ensures DbSetExtensions.LiveIndex(users[k := Data.SoftDeleted(users[k], now)], users[k].id) == None
  {
    DbSetExtensions.SoftDeletedIsInvisible(users, k, now);
  }

  /** Ids are strictly increasing in a valid table, so they are unique. */
  lemma IdsUnique(users: seq<User>, nextUserId: int, clock: int)
    requires Data.UsersValid(users, nextUserId, clock)
    ensures forall i, j :: 0 <= i < j < |users| ==> users[i].id != users[j].id
  {
  }

  /** POST /api/users: 201 with the new id and name. */
  method CreateUser(db: Data.AppDbContext, username: string, password: string, now: int)
    returns (r: ActionResult<UserResponse>)
    requires db.Valid() && now > db.clock
    modifies db
    ensures db.Valid()
    ensures db.users == old(db.users) + [Data.Inserted(old(db.nextUserId), username, password, now)]
    ensures db.nextUserId == old(db.nextUserId) + 1 && db.clock == now
    ensures db.tokens == old(db.tokens) && db.nextTokenId == old(db.nextTokenId)
    ensures r == Created(UserResponse(old(db.nextUserId), username))
    ensures GetUser(db.users, old(db.nextUserId)) == Ok(UserResponse(old(db.nextUserId), username))
  {
    var u := db.AddUser(username, password, now);
    GetUserAfterInsert(old(db.users), u);
    r := Created(ToResponse(u));
  }

  /** PUT /api/users/{id}: 404 for no live user, else the row takes the new name and password. */
  method UpdateUser(db: Data.AppDbContext, id: int, username: string, password: string, now: int)
    returns (r: ActionResult<()>)
    requires db.Valid() && now > db.clock
    modifies db
    ensures db.Valid()
    ensures db.tokens == old(db.tokens) && db.nextUserId == old(db.nextUserId) && db.nextTokenId == old(db.nextTokenId)
    ensures DbSetExtensions.LiveIndex(old(db.users), id).None? ==>
      r == NotFound && db.users == old(db.users) && db.clock == old(db.clock)
    ensures DbSetExtensions.LiveIndex(old(db.users), id).Some? ==>
      var k := DbSetExtensions.LiveIndex(old(db.users), id).value;
      && r == NoContent && db.clock == now
      && db.users == old(db.users)[k := Data.Modified(old(db.users)[k], username, password, now)]
      && GetUser(db.users, id) == Ok(UserResponse(id, username))
  {
    var found := DbSetExtensions.LiveIndex(db.users, id);
    if found.None? {
      return NotFound;
    }
    var k := found.value;
    db.SaveUserChanges(k, username, password, now);
    IdsUnique(db.users, db.nextUserId, db.clock);
    GetUserFindsLiveRow(db.users, k);
    r := NoContent;
  }

  /** DELETE /api/users/{id}: 404 for no live user, else a soft delete; the row then reads as absent. */
  method DeleteUser(db: Data.AppDbContext, id: int, now: int) returns (r: ActionResult<()>)
    requires db.Valid() && now > db.clock
    modifies db
    ensures db.Valid()
    ensures db.tokens == old(db.tokens) && db.nextUserId == old(db.nextUserId) && db.nextTokenId == old(db.nextTokenId)
    ensures DbSetExtensions.LiveIndex(old(db.users), id).None? ==>
      r == NotFound && db.users == old(db.users) && db.clock == old(db.clock)
    ensures DbSetExtensions.LiveIndex(old(db.users), id).Some? ==>
      var k := DbSetExtensions.LiveIndex(old(db.users), id).value;
      && r == NoContent && db.clock == now
      && db.users == old(db.users)[k := Data.SoftDeleted(old(db.users)[k], now)]
      && GetUser(db.users, id) == NotFound
  {
    var found := DbSetExtensions.LiveIndex(db.users, id);
    if found.None? {
      return NotFound;
    }
    var k := found.value;
    IdsUnique(db.users, db.nextUserId, db.clock);
    GetUserAfterDelete(db.users, k, now);
    db.RemoveUser(k, now);
    r := NoContent;
  }

  /** The first user created in a new, empty store gets id 1. */
  method CreateFirstUser(username: string, password: string, now: int) returns (r: ActionResult<UserResponse>)
    ensures r == Created(UserResponse(1, username))
  {
    var db := new Data.AppDbContext(now - 1);
    r := CreateUser(db, username, password, now);
  }
}
