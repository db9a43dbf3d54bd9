/**
 * The database as the services see it: a `user` table and a `bookmark` table,
 * each an in-memory map from id to row, with autoincrement counters, the unique
 * index on `user.email` and the foreign key from `bookmark.userId` to `user.id`.
 */
module Prisma {
  import opened Wrappers

  /** A row of the `user` table; `hash` is the argon2 digest, never the password. */
  datatype User = User(id: int, email: string, hash: string, firstName: Option<string>, lastName: Option<string>)

  /** A row of the `bookmark` table; `userId` is its owner. */
  datatype Bookmark = Bookmark(id: int, userId: int, title: string, link: string, description: Option<string>)

  /** What a call into the database client can throw. */
  datatype PrismaError =
    | KnownRequestError(code: string)  // PrismaClientKnownRequestError, identified by its code
    | UnknownError                     // any other error

  /** The client's codes for the three failures the tables below can produce. */
  const UniqueConstraintFailed: string := "P2002"
  const ForeignKeyConstraintFailed: string := "P2003"
  const RecordNotFound: string := "P2025"

  /** Every user row is stored under its own id, drawn from the autoincrement range [1, next). */
  ghost predicate UserIds(users: map<int, User>, next: int) {
    forall id :: id in users ==> 1 <= id < next && users[id].id == id
  }

  /** Every bookmark row is stored under its own id. */
  ghost predicate Keyed(bookmarks: map<int, Bookmark>) {
    forall id :: id in bookmarks ==> bookmarks[id].id == id
  }

  /** Every bookmark row is stored under its own id, drawn from the autoincrement range [1, next). */
  ghost predicate BookmarkIds(bookmarks: map<int, Bookmark>, next: int) {
    && Keyed(bookmarks)
    && (forall id :: id in bookmarks ==> 1 <= id < next)
  }

  /** `byEmail` is the unique index on `user.email`: it finds every user, and only by its own email. */
  ghost predicate EmailIndex(users: map<int, User>, byEmail: map<string, int>) {
    && (forall id :: id in users ==> users[id].email in byEmail && byEmail[users[id].email] == id)
    && (forall e :: e in byEmail ==> byEmail[e] in users && users[byEmail[e]].email == e)
  }

  /** The unique index makes `email` a key of the `user` table. */
  lemma EmailIndexIsUnique(users: map<int, User>, byEmail: map<string, int>, a: int, b: int)
    requires EmailIndex(users, byEmail)
    requires a in users && b in users && users[a].email == users[b].email
    ensures a == b
  {
    assert byEmail[users[a].email] == a;
  }

  class PrismaService {
    var users: map<int, User>
    var userByEmail: map<string, int>
    var nextUserId: int
    var bookmarks: map<int, Bookmark>
    var nextBookmarkId: int

    /** The schema's constraints: ids, the unique email index and the bookmark-owner foreign key. */
    ghost predicate Valid()
      reads this
    {
      && 1 <= nextUserId && 1 <= nextBookmarkId
      && UserIds(users, nextUserId)
      && EmailIndex(users, userByEmail)
      && BookmarkIds(bookmarks, nextBookmarkId)
      && (forall id :: id in bookmarks ==> bookmarks[id].userId in users)
    }

    /** An empty database. */
    constructor()
      ensures Valid()
      ensures users == map[] && userByEmail == map[] && bookmarks == map[]
    {
      users, userByEmail, nextUserId := map[], map[], 1;
      bookmarks, nextBookmarkId := map[], 1;
    }
  }
}

/** The exceptions the services let escape to the web framework. */
module Exceptions {
  import opened Prisma

  datatype Failure =
    | Forbidden(message: string)   // ForbiddenException (HTTP 403) with its message
    | Thrown(error: PrismaError)   // an error of the database client, propagated unchanged
}
