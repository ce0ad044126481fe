/** `TandemDbContext`: the `Users` table and the constraints its model
    declares, read as the validity invariant of a store. */
module TandemDbContext {
  import opened DotNetText
  import opened UserEntity

  const NameColumnLength: nat := 100
  const PhoneColumnLength: nat := 20
  const EmailColumnLength: nat := 255

  /** The `Users` table, rows in insertion order. */
  datatype Store = Store(users: seq<User>)

  /** The column length bounds. Required columns are non-null by the
      `User` type itself. */
  predicate ColumnsFit(u: User) {
    && Utf16Length(u.firstName) <= NameColumnLength
    && (u.middleName.None? || Utf16Length(u.middleName.value) <= NameColumnLength)
    && Utf16Length(u.lastName) <= NameColumnLength
    && Utf16Length(u.phoneNumber) <= PhoneColumnLength
    && Utf16Length(u.emailAddress) <= EmailColumnLength
  }

  /** `UserId` is the key. */
  predicate KeysUnique(s: Store) {
    forall i, j | 0 <= i < j < |s.users| :: s.users[i].userId != s.users[j].userId
  }

  /** The unique index on `EmailAddress`. */
  predicate EmailsUnique(s: Store) {
    forall i, j | 0 <= i < j < |s.users| :: s.users[i].emailAddress != s.users[j].emailAddress
  }

  /** The identity part of the invariant: key and unique index. */
  predicate IdentityValid(s: Store) {
    KeysUnique(s) && EmailsUnique(s)
  }

  /** Every constraint of the model. */
  predicate StoreValid(s: Store) {
    && IdentityValid(s)
    && forall i | 0 <= i < |s.users| :: ColumnsFit(s.users[i])
  }

  /** What `Guid.NewGuid` is relied on for: a non-empty identifier no row
      uses yet. */
  predicate IsFreshId(s: Store, id: Guid) {
    id != EmptyGuid && forall i | 0 <= i < |s.users| :: s.users[i].userId != id
  }
}
