# Bookmark API: ownership and credential rules

A model of the service layer of a small NestJS bookmark API. Users sign up and
sign in with an email and a password. Each user then keeps a private list of
bookmarks (title, link, optional description) and can edit their own profile.

The database client is replaced by an in-memory `PrismaService` holding two
tables: `users` and `bookmarks`, each a map from id to row, with an
autoincrement counter per table. It also holds the unique index on
`user.email`, a map from email to id. Its `Valid()` predicate states the
schema's constraints:
- rows are stored under their own ids;
- ids come from [1, next);
- the email index finds every user and finds each user only by that user's own email;
- every bookmark's `userId` is an existing user (the foreign key).

Three services work over it. Each is a class holding the shared `prisma`
object, and each method's `modifies` clause names only the table fields it
may write.

- `Bookmarks.BookmarkService`:
  - Create stamps the caller as owner.
  - List and get-by-id are filtered by owner. Get-by-id returns `None`
    (`null`) for a row that is missing or foreign; it raises no error.
  - Edit and delete read the row first. If it is missing or owned by someone
    else, they refuse with the single outcome
    `Forbidden("Access to resources denied")`, and the table stays unchanged.
  - Every mutator proves that no other user's list changes.
- `Auth.AuthService`:
  - `Signup` hashes the password and inserts the user under the
    unique-email constraint, then issues a token.
  - Its catch block is `Classify`. A `P2002` error becomes
    `Forbidden("Credentials taken")`. Any other known database error becomes
    the *returned* string `"Something went wrong"`. Any other error is
    rethrown.
  - `SignIn` gives `Forbidden("Invalid credentials")` both for an unknown
    email and for a wrong password.
  - A token is modelled as what it signs: the payload `{sub: id, email}`,
    a lifetime of 15 × 60 seconds and the configured `ACCESS_TOKEN_SECRET`.
- `Users.UserService.EditUser`: a by-id partial update of one user row.

argon2 is a value `Argon(hash, verify)` of two arbitrary functions. The
random salt is an explicit parameter. The only thing assumed of these
functions is `Sound(argon)`: `verify(hash(p, s), p)` holds for every password
`p` and salt `s`. Under that assumption, `Signup` proves the round trip:
after a successful signup, `SignIn` with the same credentials returns the
same token.

`Scenario` follows the application's end-to-end test and extends it with a
duplicate signup, an unknown email and a foreign delete, using these contracts
alone. It covers signup, a duplicate signup, signin, an unknown email, a
profile edit, and one bookmark's create → get → foreign delete refused →
edit → delete → empty list.

Two behaviours of the code are easy to miss, and the model follows both:
- For a known database error other than P2002, signup *returns* the string
  `"Something went wrong"` instead of raising (`src/auth/auth.service.ts:32`).
- `getBookmarkById` returns `null`, not an error, for a missing or foreign row
  (`src/bookmark/bookmark.service.ts:28-36`).

## Model

| member | source | states |
|---|---|---|
| Prisma.EmailIndexIsUnique | src/auth/auth.service.ts:20-31 | the unique index on `user.email` (whose violation signup classifies as P2002) makes email a key: two users with the same email are the same user |
| Bookmarks.OwnedBelow | src/bookmark/bookmark.service.ts:19-26 | the `where: { userId }` scan returns only rows of the table owned by the caller, each as stored, in strictly ascending id order (so none twice) |
| Bookmarks.OwnedBelowComplete | src/bookmark/bookmark.service.ts:19-26 | the scan misses none of the caller's rows |
| Bookmarks.OwnedFrame | src/bookmark/bookmark.service.ts:19-26 | a user's list depends only on the rows that user owns: tables that agree on them give the same list |
| Bookmarks.OthersUnaffected | src/bookmark/bookmark.service.ts:38-76 | a change confined to one row that the caller owns before and after leaves every other user's list unchanged |
| Bookmarks.OwnedAfterInsert | src/bookmark/bookmark.service.ts:9-17 | inserting a row under the next id appends it to its owner's list and leaves every other list as it was |
| Bookmarks.OwnedAfterRemove | src/bookmark/bookmark.service.ts:71-75 | deleting a row the caller owns shortens the caller's list by exactly one |
| Bookmarks.OwnedAfterUpdate | src/bookmark/bookmark.service.ts:51-58 | rewriting an owned row in place, owner unchanged, keeps the length of the owner's list |
| Bookmarks.PatchWritesPresentKeys | src/bookmark/bookmark.service.ts:51-58 | `update` with `...body` keeps id and owner, overwrites each field the body carries and keeps each field it omits |
| Bookmarks.PatchComposes | src/bookmark/bookmark.service.ts:51-58 | two edits equal one edit with the merged body (later keys win); repeating an edit changes nothing more |
| Bookmarks.SpreadOverridesOwner | src/bookmark/bookmark.service.ts:10-15 | `{ userId, ...body }` stamps the caller only when the body carries no `userId` key; a key in the body would replace the owner |
| Bookmarks.BookmarkService.GetBookmarks | src/bookmark/bookmark.service.ts:19-26 | returns exactly the caller's bookmarks, in ascending id order; the list is empty exactly when the caller owns none |
| Bookmarks.BookmarkService.GetBookmarkById | src/bookmark/bookmark.service.ts:28-36 | returns a bookmark only if it is in the caller's list with that id; returns null (no error) when the caller has no bookmark with that id |
| Bookmarks.BookmarkService.CreateBookmark | src/bookmark/bookmark.service.ts:9-17 | adds exactly one row under a fresh id, with owner = caller and the body's fields, and returns it; the caller's list gains it at the end, other lists and existing rows are unchanged; an unknown owner hits the foreign key (P2003) and changes nothing |
| Bookmarks.BookmarkService.EditBookmarkById | src/bookmark/bookmark.service.ts:38-59 | a missing or foreign row gives the one `Forbidden` outcome and leaves the table unchanged; otherwise only that row changes, to the body's fields over the old ones, with id and owner kept; the updated row is returned and found by get-by-id; no other user's list changes |
| Bookmarks.BookmarkService.DeleteBookmarkById | src/bookmark/bookmark.service.ts:61-76 | a missing or foreign row gives the same `Forbidden` outcome and leaves the table unchanged; otherwise exactly that row is removed and returned, get-by-id then gives null and the caller's list shrinks by one; no other user's list changes |
| Auth.ClassifyIssuesNoToken | src/auth/auth.service.ts:27-35 | about `Classify`, the catch block: no database error yields a token; only P2002 gives `Forbidden("Credentials taken")`; exactly the other known errors give the returned string `"Something went wrong"`; exactly the unknown errors are rethrown, unchanged |
| Auth.AuthService.SignIn | src/auth/auth.service.ts:38-67 | succeeds exactly when some user has that email and the password verifies against that user's digest; then the token, built by `SignInToken`, carries that user's id and email, a 15-minute lifetime and the configured secret; every failure is the same `Forbidden("Invalid credentials")` |
| Auth.AuthService.Signup | src/auth/auth.service.ts:17-36 | with no engine error and a fresh email, inserts exactly one user under the next id with that email and `hash(password, salt)`, adds it to the email index, advances the id counter by one and returns that user's token; a taken email gives `Forbidden("Credentials taken")`; an engine error is classified; every outcome other than a token leaves the database unchanged; with a sound hasher, signing in afterwards with the same credentials returns the same token |
| Users.PatchUserWritesPresentKeys | src/user/user.service.ts:13-15 | `update` with `...body` overwrites the names the body carries, keeps the ones it omits, never touches id, email or digest, and is idempotent |
| Users.UserService.EditUser | src/user/user.service.ts:8-18 | changes only the user with that id, to the patched row, and returns that post-update row; every other user is unchanged; a missing id makes the client throw P2025 and changes nothing |

## Left out

- HTTP routing, status codes and bootstrapping (`src/main.ts`, `src/auth/auth.controller.ts`). One example is that signin answers 200 rather than 201.
- Request validation. The `IsEmail` rule is not modelled. The `IsNotEmpty` rules appear only as the `Validated` precondition of `Signup` and `SignIn`.
- The whitelisting that strips unknown keys appears only as the precondition that the create body carries no `userId`.
- The bearer-token guard and JWT strategy are not part of this model. The caller's `userId` is taken as given.
- argon2's internals and its randomness. The salt is a parameter, and a failing hash call, which would be rethrown, is not modelled.
- JWT signing internals: the issue time, the absolute expiry timestamp and the clock. A missing `ACCESS_TOKEN_SECRET` setting is not modelled either.
- The database engine, `async`/`await` and concurrent requests. Operations run one at a time on the in-memory tables.
- Engine failures unrelated to the table contents are modelled only for signup's insert, through the `fault` parameter, because only signup inspects them. Elsewhere they would simply propagate.
- `Bookmarks.BookmarkService.GetBookmarks`: the source's `findMany` has no `orderBy`, so its order is unspecified. The model fixes ascending id order.
- Autoincrement ids are a counter starting at 1. Gaps that a database sequence may leave after a failed insert are not modelled.
- The Prisma schema and the DTO classes are not part of this model.
  - The unique email, the bookmark-owner foreign key and the `P2003`/`P2025` codes follow the client's documented behaviour.
  - Timestamp columns are not modelled.
  - The body fields come from the API's interface: title, link and an optional description for bookmarks, and optional first and last names for users.
