/**
 * The persisted records and the response shapes. Times are integer milliseconds; the
 * BaseEntity fields (Id, CreatedAt, and for users UpdatedAt/DeletedAt) are carried by each row.
 */
module Models {
  import opened Wrappers

  /** A user row: credentials plus the lifecycle stamps; DeletedAt is null while the row is live. */
  datatype User = User(
    id: int,
    username: string,
    password: string,
    createdAt: int,
    updatedAt: int,
    deletedAt: Option<int>)

  /** A token row. The owner (the `User` navigation) is the user row whose id is `userId`. */
  datatype Token = Token(
    id: int,
    createdAt: int,
    userId: int,
    accessToken: string,
    refreshToken: string,
    expiresIn: int,   // milliseconds after createdAt; a 64-bit `long` in the record
    tokenType: string)

  const MaxTokenLength: nat := 500
  const MaxTokenTypeLength: nat := 50
  const Int64Min: int := -0x8000_0000_0000_0000
  const Int64Max: int := 0x7FFF_FFFF_FFFF_FFFF

  /** The declared constraints of the Token record: required (non-empty) strings, their maximum lengths, the width of ExpiresIn. */
  predicate FitsColumns(t: Token) {
    && t.accessToken != "" && t.refreshToken != "" && t.tokenType != ""
    && |t.accessToken| <= MaxTokenLength
    && |t.refreshToken| <= MaxTokenLength
    && |t.tokenType| <= MaxTokenTypeLength
    && Int64Min <= t.expiresIn <= Int64Max
  }

  /** The end of the validity window, derived rather than stored. */
  function ExpiresAt(t: Token): int {
    t.createdAt + t.expiresIn
  }

  /** The public projection of a user: no password, no stamps. */
  datatype UserResponse = UserResponse(id: int, username: string)

  function ToResponse(u: User): UserResponse {
    UserResponse(u.id, u.username)
  }

  datatype LoginResponse = LoginResponse(
    user: UserResponse,
    accessToken: string,
    refreshToken: string,
    expiresIn: int,
    tokenType: string)
}
