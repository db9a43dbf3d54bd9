/**
 * The steps of the application's end-to-end test, extended with a duplicate
 * signup, an unknown email and a foreign delete, stated against the contracts
 * above: what a client can conclude from them alone.
 */
module Scenario {
  import opened Wrappers
  import opened Prisma
  import opened Exceptions
  import opened Auth
  import opened Bookmarks
  import opened Users

  /** Signup, a second signup with the same email, signin, a signin with an unknown email, then a profile edit, from an empty database. */
  method SignupSigninProfile(argon: Argon, secret: string, salt: nat)
    requires Sound(argon)
  {
    var prisma := new PrismaService();
    var auth := new AuthService(prisma, argon, secret);
    var credentials := AuthState("test@test.com", "123");

    var signedUp := auth.Signup(credentials, salt, None);
    assert signedUp.Ok? && signedUp.value.Tokens?;
    var again := auth.Signup(credentials, salt + 1, None);
    assert again == Err(Forbidden(CredentialsTaken));

    var signedIn := auth.SignIn(credentials);
    assert signedIn == Ok(signedUp.value.tokens);
    assert signedIn.value.accessToken.expiresIn == AccessTokenLifetime;
    var stranger := auth.SignIn(AuthState("other@test.com", "123"));
    assert stranger == Err(Forbidden(InvalidCredentials));

    var me := signedIn.value.accessToken.payload.sub;
    var users := new UserService(prisma);
    var edited := users.EditUser(me, EditUserBody(Some("test"), Some("test")));
    assert edited.Ok? && edited.value.email == credentials.email && edited.value.firstName == Some("test");
  }

  /** A signed-up user with no bookmarks creates one, reads it, edits it and deletes it; another user is refused throughout. */
  method BookmarkLifecycle(prisma: PrismaService, me: int, other: int)
    requires prisma.Valid() && me in prisma.users && prisma.bookmarks == map[] && other != me
    modifies prisma
  {
    var bookmarks := new BookmarkService(prisma);
    assert bookmarks.GetBookmarks(me) == [];
    var created := bookmarks.CreateBookmark(me, CreateBookmarkBody("test", "https://test.com", Some("test"), None));
    assert created.Ok?;
    var n := created.value.id;
    assert bookmarks.GetBookmarks(me) == [created.value];
    assert bookmarks.GetBookmarkById(me, n) == Some(created.value);
    assert bookmarks.GetBookmarkById(other, n) == None;

    var denied := bookmarks.DeleteBookmarkById(other, n);
    assert denied == Err(Forbidden(AccessDenied));
    var patched := bookmarks.EditBookmarkById(me, n, EditBookmarkBody(Some("edited"), None, None));
    assert patched.Ok? && patched.value.title == "edited" && patched.value.link == "https://test.com";
    assert bookmarks.GetBookmarkById(me, n) == Some(patched.value);

    var deleted := bookmarks.DeleteBookmarkById(me, n);
    assert deleted == Ok(patched.value);
    assert bookmarks.GetBookmarks(me) == [];
  }
}
