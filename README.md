# MyAnalytics backend: bearer-token sessions and the soft-deleted user table

This Dafny project models the session and user core of the MyAnalytics ASP.NET backend.

- **Authentication.** `TokenAuthenticationHandler` turns the `Authorization` header of a request, the token table joined to its owners, and the current time into one of five failures or a success carrying four claims.
- **Sessions.** `AuthController` handles the token life cycle:
  - login issues an access/refresh pair that lasts 15 minutes;
  - logout hard-removes the row of an access token;
  - refresh rotates a refresh token into a new pair.
- **Users.** `UsersController` lists, reads, creates, updates and deletes users. Deletion is soft: the global query filter hides a user once `DeletedAt` is set. The listing is ordered by `CreatedAt` and paged by `ToPagedResultAsync`.

The store (`Data.AppDbContext`) is a class that holds both tables as sequences, plus the identity counters and the time of the latest commit. Every controller write is one commit. A commit that writes a time stamp takes a caller-supplied time `now`, which must be later than the previous commit. Logout's hard remove writes no stamp: it takes no time and leaves the time of the latest commit as it was. The class invariant `Valid()` says:

- user ids and creation times increase along the table;
- every row's lifecycle stamps are ordered;
- every token refers to an existing user, fits its declared column constraints, and carries access and refresh strings no other row carries.

Pure decisions are functions over the tables:

- the authentication chain;
- header parsing;
- the credential check;
- the row lookups of logout and refresh;
- `FindWithFiltersAsync`;
- listing and paging.

Each operation's contract is tied to those functions, and lemmas state what holds across operations. For example:

- a logged-out header no longer authenticates;
- refresh revokes the old pair;
- a deleted user is invisible;
- the pages of a listing reconstruct it.

Inputs the program takes from its environment are parameters:

- **Time.** `DateTime.UtcNow` becomes an integer number of milliseconds.
- **Token strings.** `Guid.NewGuid()` becomes caller-supplied strings. They must be in the GUID "D" format (`IsGuidString`) and unused by any row (`Unused`).

Modules: `Wrappers`, `Models` (records), `Http` (action results), `Linq` (query operators), `AuthorizationHeader` (prefix test and `Trim`), `Decimal` (rendering of ids in claims), `Data`, `DbSetExtensions`, `Paging`, `TokenAuthentication`, `AuthController`, `UsersController`.

Where this model decides something the code leaves to the framework:

- **Unicode.** `StartsWith(..., OrdinalIgnoreCase)` of the fixed ASCII prefixes is modelled as ASCII case folding: only `a`-`z` fold, onto `A`-`Z`. `Trim()` removes the characters `Char.IsWhiteSpace` accepts, written out by code point.
- **Absent header.** `Request.Headers.Authorization.ToString()` of an absent header is `""`, so logout and refresh answer "Missing authorization header" both when the header is absent and when it is empty. The handler tells the two apart: "Missing authorization header" when absent, "Invalid authorization header format" when empty.
- **`Include`.** `Include(t => t.User)` over a required navigation is an inner join with the filtered `Users` set, so the handler treats a token whose owner is soft-deleted as "Invalid access token". Logout and refresh query `Tokens` without `Include`, so they see every row.
- **Login.** `Users.FirstOrDefaultAsync(u => u.Username == ...)` is filtered, so a soft-deleted user cannot log in. Usernames are not unique in the code; the first live row with the name decides.
- **Lifecycle stamps.** The code that stamps `CreatedAt`, `UpdatedAt` and `DeletedAt`, and turns `Remove` into a soft delete, is not part of this model. It is modelled as the contract `Backend.Tests/Data/AppDbContextTests.cs` asserts: insert sets both stamps to now, a modification that changes a value sets `UpdatedAt` to now, and a removal sets `DeletedAt` to now. Assigning the values a row already holds leaves it unmodified, as change tracking does; the tests only exercise a real change.

## Model

| member | source | states |
|---|---|---|
| Data.LiveUsers | Backend/Data/AppDbContext.cs:12 | the rows queries see are exactly the rows with null DeletedAt: membership both ways, and each live row as often as in the table |
| Data.Inserted | Backend.Tests/Data/AppDbContextTests.cs:16-25 | the inserted row is live, keeps the given id, username and password, and has CreatedAt = UpdatedAt = now |
| Data.Modified | Backend.Tests/Data/AppDbContextTests.cs:38-48 | the row takes the new username and password and keeps id, CreatedAt and DeletedAt; UpdatedAt becomes now when a value changed, and the row is unchanged when none did |
| Data.SoftDeleted | Backend.Tests/Data/AppDbContextTests.cs:58-70 | the removed row is filtered out with DeletedAt = now, every other field unchanged |
| Data.InsertStamps | Backend.Tests/Data/AppDbContextTests.cs:20-25 | an inserted row is live, has CreatedAt = UpdatedAt = now, keeps the given username and password, and satisfies the stamp invariant |
| Data.ModifyStamps | Backend.Tests/Data/AppDbContextTests.cs:38-48 | a modified live row takes the new values, stays live, keeps id and CreatedAt; when a value changed, UpdatedAt > CreatedAt, otherwise UpdatedAt is unchanged |
| Data.SoftDeleteStamps | Backend.Tests/Data/AppDbContextTests.cs:61-70 | a removed row still exists, is now filtered out, has DeletedAt after both CreatedAt and UpdatedAt, and every other field is unchanged |
| Data.RemoveAt | Backend/Controllers/AuthController.cs:69-70 | a hard remove: one row fewer; the rows before k are unchanged, the rows after k move down by one |
| Data.RemoveBeforeAppend | Backend/Controllers/AuthController.cs:101-102 | adding a row and then removing an earlier one equals removing it first and then adding |
| Data.AppDbContext.constructor | Backend/Data/AppDbContext.cs:6-15 | an empty store: both tables empty, both identities start at 1, invariant holds |
| Data.AppDbContext.AddUser | Backend/Controllers/UsersController.cs:50-51 | appends the inserted row with the next id, stamped now; tokens untouched; invariant kept |
| Data.AppDbContext.SaveUserChanges | Backend/Controllers/UsersController.cs:66-69 | replaces row k by its modification (UpdatedAt stamped now when a value changed); nothing else changes; invariant kept |
| Data.AppDbContext.RemoveUser | Backend/Controllers/UsersController.cs:82-83 | replaces row k by its soft-deleted form; nothing else changes; invariant kept |
| Data.AppDbContext.AddToken | Backend/Controllers/AuthController.cs:38-39 | appends exactly one token with the next id, created now; users untouched; invariant kept given fresh strings and an existing owner |
| Data.AppDbContext.ReplaceToken | Backend/Controllers/AuthController.cs:101-103 | one commit: row k removed and the new row appended; the row count is unchanged; invariant kept |
| Data.AppDbContext.RemoveToken | Backend/Controllers/AuthController.cs:69-70 | the table is the old one without row k; nothing else changes; invariant kept |
| DbSetExtensions.LiveIndex | Backend/Extensions/DbSetExtensions.cs:8-13 | the first live row with that Id (no earlier live row has it), or none exactly when no live row has it |
| DbSetExtensions.FindWithFilters | Backend/Extensions/DbSetExtensions.cs:12 | the result is a live row of the table with the requested Id; null iff no live row has that Id; a read that takes no store to change |
| DbSetExtensions.FindsLiveRow | Backend/Extensions/DbSetExtensions.cs:12 | with unique ids, every live row is what a lookup by its id returns |
| DbSetExtensions.SoftDeletedIsInvisible | Backend/Data/AppDbContext.cs:12 | after soft-deleting row k, a lookup by its id finds nothing |
| Linq.FirstIndex | Backend/Extensions/DbSetExtensions.cs:12 | FirstOrDefault: the first matching position, none iff nothing matches |
| Linq.Where | Backend/Data/AppDbContext.cs:12 | every kept element satisfies the predicate and occurs no more often than in the input; each input element satisfying it is kept exactly as often as it occurs |
| Linq.WhereAppend | Backend/Data/AppDbContext.cs:12 | filtering preserves order: the filter of a concatenation is the concatenation of the filters |
| Linq.Skip | Backend/Extensions/IQueryableExtensions.cs:15 | drops the first n elements (none for n <= 0, all for n >= length), keeping the order |
| Linq.Take | Backend/Extensions/IQueryableExtensions.cs:16 | a prefix of length min(max(n, 0), length) |
| Linq.InsertByKey | Backend/Controllers/UsersController.cs:27 | one insertion step adds exactly the given element (length and multiset) |
| Linq.OrderBy | Backend/Controllers/UsersController.cs:27 | OrderBy is a permutation of its input: same length, same multiset |
| Linq.InsertByKeySorted | Backend/Controllers/UsersController.cs:27 | inserting into a key-sorted sequence keeps it sorted |
| Linq.OrderBySorted | Backend/Controllers/UsersController.cs:27 | the permutation OrderBy produces is in key order |
| Linq.OrderByOfSorted | Backend/Controllers/UsersController.cs:27 | on input already in key order OrderBy is the identity (stability) |
| Linq.WhereSorted | Backend/Controllers/UsersController.cs:27 | filtering keeps key order |
| AuthorizationHeader.TrimStart | Backend/Authentication/TokenAuthenticationHandler.cs:34 | the result is a suffix, everything dropped is whitespace, and it does not start with whitespace |
| AuthorizationHeader.TrimEnd | Backend/Authentication/TokenAuthenticationHandler.cs:34 | the result is a prefix, everything dropped is whitespace, and it does not end with whitespace |
| AuthorizationHeader.Trim | Backend/Authentication/TokenAuthenticationHandler.cs:34 | the result is no longer than the input |
| AuthorizationHeader.TrimSpec | Backend/Authentication/TokenAuthenticationHandler.cs:34 | the result has no whitespace at either end, and the input is whitespace + result + whitespace |
| AuthorizationHeader.TrimEmptyIff | Backend/Authentication/TokenAuthenticationHandler.cs:34-35 | the trimmed text is empty iff every character is whitespace |
| AuthorizationHeader.TrimOfTrimmed | Backend/Authentication/TokenAuthenticationHandler.cs:34 | a trimmed string is its own Trim |
| AuthorizationHeader.TrimIdempotent | Backend/Authentication/TokenAuthenticationHandler.cs:34 | trimming twice is trimming once |
| AuthorizationHeader.TrimPadded | Backend/Authentication/TokenAuthenticationHandler.cs:34 | whitespace padding around a trimmed value is removed exactly |
| AuthorizationHeader.FoldedCharIff | Backend/Authentication/TokenAuthenticationHandler.cs:29 | a character compares equal, ignoring ASCII case, to a prefix character iff it is one of that character's two spellings |
| AuthorizationHeader.StartsWithSpellings | Backend/Authentication/TokenAuthenticationHandler.cs:29 | the ignore-case prefix test holds iff the string is long enough and each leading character is the lower- or upper-case spelling of the prefix character there |
| AuthorizationHeader.BearerSpellings | Backend/Authentication/TokenAuthenticationHandler.cs:29 | "Bearer " passes in any mix of letter case, character by character, and nothing else passes |
| AuthorizationHeader.RefreshSpellings | Backend/Controllers/AuthController.cs:82 | "Refresh " passes in any mix of letter case, character by character, and nothing else passes |
| AuthorizationHeader.Parse | Backend/Authentication/TokenAuthenticationHandler.cs:28-34 | empty iff the header is ""; wrong scheme iff non-empty and not prefixed (ASCII case-insensitively); otherwise the credential is trimmed |
| AuthorizationHeader.EmptyCredentialIff | Backend/Authentication/TokenAuthenticationHandler.cs:34-38 | for a prefixed header the credential is empty iff everything after the prefix is whitespace |
| AuthorizationHeader.ParseRoundTrip | Backend/Authentication/TokenAuthenticationHandler.cs:29-34 | any case variant of the scheme followed by a whitespace-padded trimmed value parses back to that value |
| AuthorizationHeader.SchemeThenValue | Backend/Authentication/TokenAuthenticationHandler.cs:29-34 | scheme + value parses to value for a trimmed value |
| AuthorizationHeader.TrimStartOfPadded | Backend/Authentication/TokenAuthenticationHandler.cs:34 | leading whitespace before a value that starts with a non-whitespace character is dropped exactly |
| AuthorizationHeader.TrimEndOfPadded | Backend/Authentication/TokenAuthenticationHandler.cs:34 | trailing whitespace after a value that ends with a non-whitespace character is dropped exactly |
| Decimal.NatRoundTrip | Backend/Authentication/TokenAuthenticationHandler.cs:56 | the decimal digits of n read back as n |
| Decimal.IntToString | Backend/Authentication/TokenAuthenticationHandler.cs:56-59 | a leading '-' iff the value is negative, decimal digits after it, and no leading zero |
| Decimal.IntRoundTrip | Backend/Authentication/TokenAuthenticationHandler.cs:56-59 | parsing Int32.ToString() of any id gives the id back |
| Decimal.IntToStringInjective | Backend/Authentication/TokenAuthenticationHandler.cs:56-59 | two ids render to the same claim value iff they are equal |
| TokenAuthentication.Claims | Backend/Authentication/TokenAuthenticationHandler.cs:54-60 | exactly four claims |
| TokenAuthentication.FindByAccessToken | Backend/Authentication/TokenAuthenticationHandler.cs:40-42 | the first row with that access token and a live owner; none iff no such row |
| TokenAuthentication.CheckHeader | Backend/Authentication/TokenAuthenticationHandler.cs:23-38 | each of the three header failures iff its condition; otherwise a non-empty trimmed credential taken after "Bearer " |
| TokenAuthentication.CheckToken | Backend/Authentication/TokenAuthenticationHandler.cs:40-64 | invalid iff no row matches; expired iff the matched row has now > CreatedAt + ExpiresIn; on success, the claims of the live owner and that row |
| TokenAuthentication.HandleAuthenticate | Backend/Authentication/TokenAuthenticationHandler.cs:21-65 | the three header failures occur iff the header itself is rejected, whatever the tables hold; success needs a header with the "Bearer " prefix |
| TokenAuthentication.MissingHeaderIff | Backend/Authentication/TokenAuthenticationHandler.cs:23-26 | "Missing authorization header" iff there is no header |
| TokenAuthentication.InvalidFormatIff | Backend/Authentication/TokenAuthenticationHandler.cs:28-32 | "Invalid authorization header format" iff the header is present and empty or lacks the "Bearer " prefix |
| TokenAuthentication.MissingAccessTokenIff | Backend/Authentication/TokenAuthenticationHandler.cs:34-38 | "Missing access token" iff the header is prefixed and only whitespace follows |
| TokenAuthentication.InvalidAccessTokenIff | Backend/Authentication/TokenAuthenticationHandler.cs:40-46 | "Invalid access token" iff a credential was presented and no row with a live owner carries it |
| TokenAuthentication.ExpiredIff | Backend/Authentication/TokenAuthenticationHandler.cs:48-52 | "Token has expired" iff the matched row has now > CreatedAt + ExpiresIn |
| TokenAuthentication.SuccessIff | Backend/Authentication/TokenAuthenticationHandler.cs:54-64 | success iff every check passes; the claims then name the matched row and its live owner |
| TokenAuthentication.ClaimsIdentify | Backend/Authentication/TokenAuthenticationHandler.cs:54-60 | the claims carry NameIdentifier = user id, Name = username, UserId = user id and TokenId = token id, each readable back |
| TokenAuthentication.EarlyFailuresIgnoreStore | Backend/Authentication/TokenAuthenticationHandler.cs:21-38 | when the header is rejected, the result is that failure whatever the tables and the time are |
| TokenAuthentication.FindsOwnToken | Backend/Authentication/TokenAuthenticationHandler.cs:40-42 | with unique access tokens, "Bearer <token>" of row k selects row k when its owner is live |
| TokenAuthentication.AuthenticatesOwnToken | Backend/Authentication/TokenAuthenticationHandler.cs:21-65 | a live owner's unexpired token authenticates as that owner and that token |
| TokenAuthentication.ExpiryBoundary | Backend/Authentication/TokenAuthenticationHandler.cs:48-52 | at exactly CreatedAt + ExpiresIn the token still succeeds; one millisecond later it is expired |
| TokenAuthentication.UnknownTokenRejected | Backend/Authentication/TokenAuthenticationHandler.cs:40-46 | a credential that no row carries is rejected as invalid, at any time |
| TokenAuthentication.DeletedOwnerRejected | Backend/Authentication/TokenAuthenticationHandler.cs:40-42 | after soft-deleting a token's owner that token is rejected as invalid |
| AuthController.GuidStringShape | Backend/Controllers/AuthController.cs:33-34 | a GUID string is non-empty, at most 500 characters and already trimmed |
| AuthController.NewSession | Backend/Controllers/AuthController.cs:29-37 | the issued row belongs to the given user, with the given strings, ExpiresIn 900000 and TokenType "Bearer" |
| AuthController.NewSessionFitsColumns | Backend/Models/Token.cs:14-27 | an issued row meets the Token record's required-string, maximum-length and 64-bit constraints |
| AuthController.SessionResponse | Backend/Controllers/AuthController.cs:41-47 | the body carries the owner's id and username (no password) and the row's access token, refresh token, lifetime and type |
| AuthController.CheckCredentials | Backend/Controllers/AuthController.cs:19-27 | accepts only the first live user with that name, and only with an equal password; an unknown name and a wrong password both give none |
| AuthController.Login | Backend/Controllers/AuthController.cs:17-48 | on failure, 401 "Invalid username or password" and nothing changes; on success, exactly one token for that user is appended and the response echoes the user's id and name and the new row |
| AuthController.LookupByHeader | Backend/Controllers/AuthController.cs:54-68 | an empty header, then a wrong scheme, each gives its message; with a credential, the not-found message iff no row carries it in the chosen column, and otherwise a found row, the first that carries it; no other message is ever returned |
| AuthController.LookupFindsRow | Backend/Controllers/AuthController.cs:62-68 | a header whose credential is row k's value, when no earlier row carries that value, finds row k |
| AuthController.LogoutLookup | Backend/Controllers/AuthController.cs:54-68 | the three 400 messages, in order, each iff its condition, and no other rejection; a found row is the first whose access token is the trimmed credential |
| AuthController.LogoutFindsOwnToken | Backend/Controllers/AuthController.cs:54-68 | with unique access tokens, "Bearer " followed by row k's trimmed access token finds row k, so Logout removes exactly that row |
| AuthController.RefreshLookup | Backend/Controllers/AuthController.cs:77-91 | the same chain with the "Refresh " prefix, looked up by RefreshToken, ending in "Invalid refresh token", and no other rejection; a found row is the first with that refresh token |
| AuthController.RefreshFindsOwnToken | Backend/Controllers/AuthController.cs:77-91 | with unique refresh tokens, "Refresh " followed by row k's trimmed refresh token finds row k, so Refresh rotates exactly that row |
| AuthController.Logout | Backend/Controllers/AuthController.cs:52-72 | on a rejection, 400 with that message and the table unchanged; otherwise 200 and exactly the matched row is removed, with no expiry check |
| AuthController.Owner | Backend/Controllers/AuthController.cs:106 | the user row the token's foreign key names |
| AuthController.Refresh | Backend/Controllers/AuthController.cs:75-112 | on a rejection, 400 and nothing changes; otherwise the old row is replaced by a new 900000/"Bearer" row for the same user, the row count is unchanged, and the new pair is returned with the old row's owner; no expiry check |
| AuthController.AccessTokenGoneAfterRemove | Backend/Controllers/AuthController.cs:69-70 | with unique access tokens, no remaining row carries the removed row's access token |
| AuthController.RefreshTokenGoneAfterRemove | Backend/Controllers/AuthController.cs:102 | with unique refresh tokens, no remaining row carries the removed row's refresh token |
| AuthController.NoAuthenticationAfterLogout | Backend/Controllers/AuthController.cs:69-71 | after logout the same header fails authentication, as "Invalid access token" |
| AuthController.SecondLogoutRejected | Backend/Controllers/AuthController.cs:64-68 | logging out a second time with the same header is a 400 "Invalid access token" |
| AuthController.Rotated | Backend/Controllers/AuthController.cs:101-102 | the rotated table has the same length; the rows before k are unchanged, the rows after k move down by one, and the new row is last |
| AuthController.RefreshRevokesAccessToken | Backend/Controllers/AuthController.cs:101-103 | after rotation the old access token no longer authenticates |
| AuthController.RefreshTokenSingleUse | Backend/Controllers/AuthController.cs:87-103 | after rotation the old refresh token is rejected as "Invalid refresh token" |
| AuthController.IssuedTokenAuthenticates | Backend/Controllers/AuthController.cs:29-39 | a newly issued row authenticates as its live owner up to CreatedAt + 900000 ms and is expired after that |
| AuthController.RefreshResponseAsWritten | Backend/Controllers/AuthController.cs:87-111 | the response as written: a null dereference iff a row is found whose owner the context does not already track |
| AuthController.RefreshOnFreshContextFails | Backend/Controllers/AuthController.cs:106 | in a fresh request context every refresh that finds its row fails with a null dereference; only a tracked owner yields the intended response |
| Paging.CeilDiv | Backend/Responses/PagedResponse.cs:9 | the integer ceiling: (q-1)·d < n <= q·d |
| Paging.CeilDivUnique | Backend/Responses/PagedResponse.cs:9 | the ceiling is the only q with (q-1)·d < n <= q·d |
| Paging.PagedResponse.TotalPages | Backend/Responses/PagedResponse.cs:9 | (TotalPages-1)·PageSize < TotalItems <= TotalPages·PageSize for PageSize > 0 |
| Paging.PagedResult.TotalPages | Backend/Responses/PagedResult.cs:9 | the same bounds for the second, identical response type |
| Paging.Window | Backend/Extensions/IQueryableExtensions.cs:14-17 | Skip then Take: the clamped length, and the items are the query's from the offset on |
| Paging.ToPagedResult | Backend/Extensions/IQueryableExtensions.cs:8-26 | TotalItems is the whole query's length, Page and PageSize are echoed, Items is the contiguous slice at (page-1)·pageSize with at most pageSize items, in order |
| Paging.ItemCount | Backend.Tests/Controllers/UsersControllerTests.cs:60-61 | item count = max(0, min(pageSize, total − (page−1)·pageSize)) |
| Paging.PastEndPageIsEmpty | Backend/Extensions/IQueryableExtensions.cs:13-17 | a page starting at or past the end has no items but still the full TotalItems |
| Paging.PagesUpToPrefix | Backend/Extensions/IQueryableExtensions.cs:14-17 | pages 1..k concatenated are the query's first k·pageSize items |
| Paging.AllPagesReconstructQuery | Backend/Extensions/IQueryableExtensions.cs:14-17 | pages 1..TotalPages concatenated reconstruct the query |
| Paging.ZeroItemsZeroPages | Backend.Tests/Controllers/UsersControllerTests.cs:49-59 | no items, no pages |
| Paging.ExactMultiplePages | Backend/Responses/PagedResult.cs:9 | k·PageSize items give exactly k pages |
| Paging.PageCountExamples | Backend.Tests/Controllers/UsersControllerTests.cs:85-86 | 5 items at page size 10 give 1 page; 15 items give 2 |
| Paging.Wrap32 | Backend/Extensions/IQueryableExtensions.cs:15 | the result is a 32-bit value congruent to the input modulo 2^32, and is the input when the input fits |
| Paging.ToPagedResultAsWritten | Backend/Extensions/IQueryableExtensions.cs:8-26 | the method with the offset computed in wrapping 32-bit arithmetic; counts and echoes unchanged |
| Paging.OffsetOverflowRereadsFirstPage | Backend/Extensions/IQueryableExtensions.cs:15 | page 1073741825 at size 4 returns the first items as written, while the intended page is empty |
| UsersController.Responses | Backend/Controllers/UsersController.cs:28 | one response per row, with the row's id and username only |
| UsersController.OrderedFromLive | Backend/Controllers/UsersController.cs:25-29 | each entry of the ordered, projected live rows is the response of a live row |
| UsersController.UserQuery | Backend/Controllers/UsersController.cs:25-29 | the listing has as many entries as there are live users, each the response of a live user; EveryLiveUserListed and UserQueryIsTableOrder give the rest |
| UsersController.GetUsers | Backend/Controllers/UsersController.cs:20-31 | 200 with exactly the page of the ordered live-user listing at (page-1)·pageSize; Page and PageSize echoed, TotalItems = number of live users, each item a live user's id and username |
| UsersController.PageDrawnFromLive | Backend/Controllers/UsersController.cs:25-30 | each item of a page of the listing is the response of a live user |
| UsersController.UserQueryIsTableOrder | Backend/Controllers/UsersController.cs:27 | in a valid store the CreatedAt order is the table order of the live rows |
| UsersController.StoredPageInTableOrder | Backend/Controllers/UsersController.cs:20-31 | in a valid store, item i of a page is the response of live row offset + i, in table order |
| UsersController.EveryLiveUserListed | Backend/Controllers/UsersController.cs:25-29 | every live user appears in the listing |
| UsersController.PagesCoverListing | Backend/Controllers/UsersController.cs:25-29 | reading pages 1..TotalPages yields the whole listing, in order |
| UsersController.GetUser | Backend/Controllers/UsersController.cs:35-43 | 404 iff no live user has that id; otherwise 200 with the id and username of a live user with that id |
| UsersController.GetUserFindsLiveRow | Backend/Controllers/UsersController.cs:37 | with unique ids, a live row is returned with its current name |
| UsersController.GetUserAfterInsert | Backend/Controllers/UsersController.cs:49-53 | a row appended with a new id is then found by that id |
| UsersController.GetUserAfterDelete | Backend/Controllers/UsersController.cs:77-84 | after soft-deleting a row, reading, updating or deleting it by its id finds nothing |
| UsersController.IdsUnique | Backend/Controllers/UsersController.cs:50-51 | store-assigned ids are unique |
| UsersController.CreateUser | Backend/Controllers/UsersController.cs:47-54 | 201 with the new id and the given name; exactly one live row is appended; GetUser then finds it |
| UsersController.UpdateUser | Backend/Controllers/UsersController.cs:58-71 | 404 and nothing changes for a missing or deleted id; otherwise 204, exactly Username and Password change (and UpdatedAt when a value differs), and GetUser shows the new name |
| UsersController.DeleteUser | Backend/Controllers/UsersController.cs:75-85 | 404 and nothing changes for a missing or deleted id; otherwise 204, the row is soft-deleted in place, and GetUser is then 404 |
| UsersController.CreateFirstUser | Backend.Tests/Controllers/UsersControllerTests.cs:178-185 | the first user created in an empty store gets id 1 |

## Left out

- EF Core itself is not modelled: the providers, async execution, change tracking across requests, and SQL translation. The tables are in-memory sequences, and each controller action is one commit.
- The ASP.NET plumbing is not modelled: the `AuthenticationHandler` base, options, the ticket and principal objects, and routing. The result is a datatype of failures and claim lists.
- DI, SQLite and middleware wiring in Backend/Program.cs are not modelled.
- Concurrent requests are not modelled: two refreshes racing on one row, or logins racing on the counters. The model is sequential.
- Clocks are not modelled. Time is an integer number of milliseconds passed in. Each commit requires `now` later than the previous commit, as the lifecycle tests rely on.
- GUID generation is not modelled. Token strings are parameters in the GUID "D" format and required to be fresh. The code does not enforce uniqueness, so freshness is a precondition, not a theorem.
- AuthorizationHeader.StartsWithIgnoreCase: full Unicode case folding of `OrdinalIgnoreCase` is left out. The model folds only ASCII letters, so it rejects any non-ASCII character in the prefix position. Whether .NET's ordinal ignore-case comparison maps some non-ASCII character (for example U+017F or U+0131) onto an ASCII prefix letter is not established here.
- A header sent several times is left out. `StringValues.ToString` would join the values with commas.
- Paging.PagedResponse.TotalPages, Paging.PagedResult.TotalPages: the `double` and `Math.Ceiling` path of `TotalPages` is modelled as exact integer ceiling. The behaviour at page size 0 (a division by zero in `double`, giving infinity or NaN before the cast) and at negative page sizes, which a query string can carry (the code gives `(int)Math.Ceiling(5 / -2.0) == -2`), is left out, so the TotalPages members require `PageSize > 0`.
- Paging.ToPagedResult, UsersController.GetUsers: the offset `(page - 1) * pageSize` is computed without 32-bit wrap-around, the evident intent. The code as written, with the wrap, is Paging.ToPagedResultAsWritten (see Findings).
- EF providers differ on a negative `Skip` or `Take` (for a page below 1, a negative page size, or a wrapped offset). The model uses LINQ-to-objects clamping.
- TokenAuthentication.CheckToken: `CreatedAt.AddMilliseconds(ExpiresIn)` is exact integer addition. `DateTime.AddMilliseconds` throws when the sum leaves DateTime's range (years 1 to 9999); that exception is not modelled.
- Token's `UpdatedAt`/`DeletedAt`, and any stamping of tokens, are not modelled. Token rows are only inserted and hard-removed.
- `Backend/Data/AppDbContext.cs` declares no `Tokens` set, although the controllers and the handler use one. The model gives the store a token table. The BaseEntity class and the stamping code are not part of this model. `Backend/Models/User.cs` does not derive from BaseEntity, though the code relies on Id and DeletedAt.
- Request validation of `CreateUserRequest`, `UpdateUserRequest` and `LoginRequest` (`[Required]` and model binding) is not part of this model. Any strings are accepted.
- Passwords are compared as plain strings, as the code does. Hashing is not part of the code.
- Username uniqueness is not modelled. The shown code does not enforce it, and login takes the first live row with the name.
- AuthController.Owner: the model resolves `token.User` by UserId among all user rows, which is the row the navigation denotes when it is loaded. The as-written null navigation is modelled only for the response, in AuthController.RefreshResponseAsWritten.
- UsersController.GetUsers: the code declares the result as `PagedResult<UserResponse>` but returns the `PagedResponse<UserResponse>` that `ToPagedResultAsync` builds. The model returns the `PagedResponse`, and `PagedResult` is modelled only for its TotalPages.
- Linq.OrderBy: the model's sort is stable, which a SQL `ORDER BY` is not. In a valid store CreatedAt values are distinct, so the order is determined either way.

## Findings

| source | as written | input that shows it | evidently intended | confidence | as-written member | corrected member |
|---|---|---|---|---|---|---|
| Backend/Extensions/IQueryableExtensions.cs:15 | `(page - 1) * pageSize` is 32-bit `int` arithmetic, unchecked | page = 1073741825, pageSize = 4: the product 2^32 wraps to 0, so the first page comes back | a page past the end is empty, with the full TotalItems | not executed | Paging.OffsetOverflowRereadsFirstPage | Paging.PastEndPageIsEmpty |
| Backend/Controllers/AuthController.cs:106 | the token is loaded at line 87 without `Include(t => t.User)`, so fresh request contexts leave `token.User` null. The response dereferences it after the rotation is saved at line 103 | `Authorization: Refresh <a stored refresh token>` in a request whose context tracks no user: a NullReferenceException (500), after the old pair is already deleted and the new one never delivered | 200 with the new pair and the old row's owner | not executed | AuthController.RefreshOnFreshContextFails | AuthController.Refresh |
