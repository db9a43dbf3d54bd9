/**
 * The bookmark service: every query is scoped to the caller's id, and edit and
 * delete first read the row and refuse, with one and the same error, a row that
 * is missing or owned by someone else.
 */
module Bookmarks {
  import opened Wrappers
  import opened Prisma
  import opened Exceptions

  /** The message of the one refusal edit and delete give. */
  const AccessDenied: string := "Access to resources denied"

  /**
   * The body handed to create: title, link and an optional description.
   * `userId` stands for a `userId` key in the request body, which validation
   * strips (whitelisting) before the service is reached.
   */
  datatype CreateBookmarkBody = CreateBookmarkBody(title: string, link: string, description: Option<string>, userId: Option<int>)

  /** The body handed to edit: each field may be absent. */
  datatype EditBookmarkBody = EditBookmarkBody(title: Option<string>, link: Option<string>, description: Option<string>)

  /** The row create writes, `{ userId, ...body }`: a key of the body is spread after `userId` and wins. */
  function CreateData(id: int, userId: int, body: CreateBookmarkBody): Bookmark {
    var owner := if body.userId.Some? then body.userId.value else userId;
    Bookmark(id, owner, body.title, body.link, body.description)
  }

  /** The row update writes, `{ ...body }` over the stored row. */
  function Patch(b: Bookmark, body: EditBookmarkBody): Bookmark {
    b.(title := if body.title.Some? then body.title.value else b.title,
       link := if body.link.Some? then body.link.value else b.link,
       description := if body.description.Some? then body.description else b.description)
  }

  /** Two edits in a row, the second body's keys winning. */
  function Merge(first: EditBookmarkBody, second: EditBookmarkBody): EditBookmarkBody {
    EditBookmarkBody(
      if second.title.Some? then second.title else first.title,
      if second.link.Some? then second.link else first.link,
      if second.description.Some? then second.description else first.description)
  }

  /** Bookmark `id` exists and its owner is `userId`: the check in front of edit and delete. */
  predicate Owns(bookmarks: map<int, Bookmark>, userId: int, id: int) {
    id in bookmarks && bookmarks[id].userId == userId
  }

  /** The rows owned by `userId` among ids [1, n), in ascending id order (the `where: { userId }` scan). */
  function OwnedBelow(bookmarks: map<int, Bookmark>, userId: int, n: int): (r: seq<Bookmark>)
    requires Keyed(bookmarks)
    ensures forall i :: 0 <= i < |r| ==> 1 <= r[i].id < n && Owns(bookmarks, userId, r[i].id) && bookmarks[r[i].id] == r[i]
    ensures forall i, j :: 0 <= i < j < |r| ==> r[i].id < r[j].id
    decreases n
  {
    if n <= 1 then []
    else
      var last := n - 1;
      OwnedBelow(bookmarks, userId, last) + (if Owns(bookmarks, userId, last) then [bookmarks[last]] else [])
  }

  /** The scan depends only on the rows owned by `userId`: any change to other users' rows leaves it as it was. */
  lemma {:induction false} OwnedFrame(t: map<int, Bookmark>, t': map<int, Bookmark>, userId: int, n: int)
    requires Keyed(t) && Keyed(t')
    requires forall id :: 1 <= id < n ==>
      (Owns(t, userId, id) <==> Owns(t', userId, id)) && (Owns(t, userId, id) ==> t[id] == t'[id])
    ensures OwnedBelow(t, userId, n) == OwnedBelow(t', userId, n)
    decreases n
  {
    if n > 1 {
      OwnedFrame(t, t', userId, n - 1);
    }
  }

  /** A change confined to one row that `userId` owns before and after leaves every other user's list as it was. */
  lemma OthersUnaffected(t: map<int, Bookmark>, t': map<int, Bookmark>, userId: int, changed: int, n: int)
    requires Keyed(t) && Keyed(t')
    requires forall id :: id != changed ==> (id in t <==> id in t') && (id in t ==> t[id] == t'[id])
    requires changed in t ==> t[changed].userId == userId
    requires changed in t' ==> t'[changed].userId == userId
    ensures forall other :: other != userId ==> OwnedBelow(t, other, n) == OwnedBelow(t', other, n)
  {
    forall other | other != userId
      ensures OwnedBelow(t, other, n) == OwnedBelow(t', other, n)
    {
      OwnedFrame(t, t', other, n);
    }
  }

  /** A row inserted under a fresh id above every existing one is appended to its owner's list, and only to it. */
  lemma OwnedAfterInsert(t: map<int, Bookmark>, b: Bookmark, userId: int, n: int)
    requires BookmarkIds(t, n) && 1 <= n && b.id == n
    ensures OwnedBelow(t[n := b], userId, n + 1) == OwnedBelow(t, userId, n) + (if b.userId == userId then [b] else [])
  {
    var t' := t[n := b];
    OwnedFrame(t, t', userId, n);
    assert OwnedBelow(t', userId, n + 1) == OwnedBelow(t', userId, n) + (if Owns(t', userId, n) then [b] else []);
  }

  /** The scan misses none of the rows `userId` owns. */
  lemma {:induction false} OwnedBelowComplete(t: map<int, Bookmark>, userId: int, id: int, n: int)
    requires Keyed(t) && Owns(t, userId, id) && 1 <= id < n
    ensures t[id] in OwnedBelow(t, userId, n)
    decreases n
  {
    if id < n - 1 {
      OwnedBelowComplete(t, userId, id, n - 1);
    }
  }

  /** Removing an owned row shortens its owner's list by one. */
  lemma {:induction false} OwnedAfterRemove(t: map<int, Bookmark>, userId: int, id: int, n: int)
    requires Keyed(t) && Owns(t, userId, id) && 1 <= id < n
    ensures |OwnedBelow(t - {id}, userId, n)| == |OwnedBelow(t, userId, n)| - 1
    decreases n
  {
    var t' := t - {id};
    var before, after := OwnedBelow(t, userId, n - 1), OwnedBelow(t', userId, n - 1);
    if n - 1 == id {
      OwnedFrame(t, t', userId, n - 1);
      assert OwnedBelow(t, userId, n) == before + [t[id]];
      assert OwnedBelow(t', userId, n) == after;
    } else {
      OwnedAfterRemove(t, userId, id, n - 1);
      var last := if Owns(t, userId, n - 1) then [t[n - 1]] else [];
      assert OwnedBelow(t, userId, n) == before + last;
      assert OwnedBelow(t', userId, n) == after + last;
    }
  }

  /** Rewriting an owned row in place, owner unchanged, keeps the length of its owner's list. */
  lemma {:induction false} OwnedAfterUpdate(t: map<int, Bookmark>, userId: int, b: Bookmark, n: int)
    requires Keyed(t) && Owns(t, userId, b.id) && b.userId == userId && 1 <= b.id < n
    ensures |OwnedBelow(t[b.id := b], userId, n)| == |OwnedBelow(t, userId, n)|
    decreases n
  {
    var t' := t[b.id := b];
    assert Keyed(t') by {
      forall id | id in t' ensures t'[id].id == id {
        if id != b.id { assert t'[id] == t[id]; }
      }
    }
    var before, after := OwnedBelow(t, userId, n - 1), OwnedBelow(t', userId, n - 1);
    if n - 1 == b.id {
      OwnedFrame(t, t', userId, n - 1);
      assert OwnedBelow(t, userId, n) == before + [t[b.id]];
      assert OwnedBelow(t', userId, n) == after + [b];
    } else {
      OwnedAfterUpdate(t, userId, b, n - 1);
      assert (n - 1 in t') == (n - 1 in t) && (n - 1 in t ==> t'[n - 1] == t[n - 1]);
      var last := if Owns(t, userId, n - 1) then [t[n - 1]] else [];
      assert OwnedBelow(t, userId, n) == before + last;
      assert OwnedBelow(t', userId, n) == after + last;
    }
  }

  /** An edit keeps the row's id and owner and writes exactly the keys its body carries. */
  lemma PatchWritesPresentKeys(b: Bookmark, body: EditBookmarkBody)
    ensures Patch(b, body).id == b.id && Patch(b, body).userId == b.userId
    ensures body.title.Some? ==> Patch(b, body).title == body.title.value
    ensures body.title.None? ==> Patch(b, body).title == b.title
    ensures body.link.Some? ==> Patch(b, body).link == body.link.value
    ensures body.link.None? ==> Patch(b, body).link == b.link
    ensures body.description.Some? ==> Patch(b, body).description == body.description
    ensures body.description.None? ==> Patch(b, body).description == b.description
  {
  }

  /** Two edits amount to one edit with the merged body; repeating an edit changes nothing more. */
  lemma PatchComposes(b: Bookmark, first: EditBookmarkBody, second: EditBookmarkBody)
    ensures Patch(Patch(b, first), second) == Patch(b, Merge(first, second))
    ensures Patch(Patch(b, first), first) == Patch(b, first)
  {
  }

  /** Without whitelisting, a `userId` key in the create body would replace the caller as owner. */
  lemma SpreadOverridesOwner(id: int, userId: int, body: CreateBookmarkBody)
    ensures body.userId.None? ==> CreateData(id, userId, body).userId == userId
    ensures body.userId.Some? ==> CreateData(id, userId, body).userId == body.userId.value
  {
  }

  class BookmarkService {
    const prisma: PrismaService

    constructor(prisma: PrismaService)
      ensures this.prisma == prisma
    {
      this.prisma := prisma;
    }

    /** `findMany({ where: { userId } })`: the caller's bookmarks and nobody else's. */
    function GetBookmarks(userId: int): (r: seq<Bookmark>)
      reads prisma
      requires prisma.Valid()
      ensures forall i :: 0 <= i < |r| ==> Owns(prisma.bookmarks, userId, r[i].id) && prisma.bookmarks[r[i].id] == r[i]
      ensures forall id :: Owns(prisma.bookmarks, userId, id) ==> prisma.bookmarks[id] in r
      ensures forall i, j :: 0 <= i < j < |r| ==> r[i].id < r[j].id
      ensures r == [] <==> forall id :: !Owns(prisma.bookmarks, userId, id)
    {
      var r := OwnedBelow(prisma.bookmarks, userId, prisma.nextBookmarkId);
      assert forall id :: Owns(prisma.bookmarks, userId, id) ==> prisma.bookmarks[id] in r by {
        forall id | Owns(prisma.bookmarks, userId, id) ensures prisma.bookmarks[id] in r {
          OwnedBelowComplete(prisma.bookmarks, userId, id, prisma.nextBookmarkId);
        }
      }
      assert r != [] ==> Owns(prisma.bookmarks, userId, r[0].id);
      r
    }

    /** `findFirst({ where: { userId, id } })`: the caller's bookmark with that id, or null. */
    function GetBookmarkById(userId: int, bookmarkId: int): (r: Option<Bookmark>)
      reads prisma
      requires prisma.Valid()
      ensures r.Some? ==> r.value in GetBookmarks(userId) && r.value.id == bookmarkId
      ensures r.None? ==> forall b :: b in GetBookmarks(userId) ==> b.id != bookmarkId
    {
      if Owns(prisma.bookmarks, userId, bookmarkId) then Some(prisma.bookmarks[bookmarkId]) else None
    }

    /** `create({ data: { userId, ...body } })`: a new row owned by the caller, under the next id. */
    method CreateBookmark(userId: int, body: CreateBookmarkBody) returns (r: Result<Bookmark, Failure>)
      requires prisma.Valid()
      requires body.userId.None?
      modifies prisma`bookmarks, prisma`nextBookmarkId
      ensures prisma.Valid()
      ensures userId !in prisma.users ==>
        && r == Err(Thrown(KnownRequestError(ForeignKeyConstraintFailed)))
        && prisma.bookmarks == old(prisma.bookmarks) && prisma.nextBookmarkId == old(prisma.nextBookmarkId)
      ensures userId in prisma.users ==>
        && r == Ok(Bookmark(old(prisma.nextBookmarkId), userId, body.title, body.link, body.description))
        && r.value.id !in old(prisma.bookmarks)
        && prisma.bookmarks == old(prisma.bookmarks)[r.value.id := r.value]
        && prisma.nextBookmarkId == old(prisma.nextBookmarkId) + 1
        && GetBookmarks(userId) == old(GetBookmarks(userId)) + [r.value]
      ensures forall other :: other != userId ==> GetBookmarks(other) == old(GetBookmarks(other))
    {
      if userId !in prisma.users {
        return Err(Thrown(KnownRequestError(ForeignKeyConstraintFailed)));
      }
      var id := prisma.nextBookmarkId;
      var b := CreateData(id, userId, body);
      assert b == Bookmark(id, userId, body.title, body.link, body.description);
      ghost var t := prisma.bookmarks;
      prisma.bookmarks := prisma.bookmarks[id := b];
      prisma.nextBookmarkId := id + 1;
      assert BookmarkIds(prisma.bookmarks, prisma.nextBookmarkId);
      forall u
        ensures OwnedBelow(prisma.bookmarks, u, id + 1) == OwnedBelow(t, u, id) + (if b.userId == u then [b] else [])
      {
        OwnedAfterInsert(t, b, u, id);
      }
      assert prisma.Valid();
      ghost var before, after := OwnedBelow(t, userId, id), OwnedBelow(prisma.bookmarks, userId, id + 1);
      assert after == before + [b] by {
        OwnedAfterInsert(t, b, userId, id);
        assert b.userId == userId;
      }
      assert GetBookmarks(userId) == after;
      r := Ok(b);
    }

    /** Look the row up by id, refuse unless the caller owns it, then `update({ data: { ...body } })`. */
    method EditBookmarkById(userId: int, bookmarkId: int, body: EditBookmarkBody) returns (r: Result<Bookmark, Failure>)
      requires prisma.Valid()
      modifies prisma`bookmarks
      ensures prisma.Valid()
      ensures !Owns(old(prisma.bookmarks), userId, bookmarkId) ==>
        r == Err(Forbidden(AccessDenied)) && prisma.bookmarks == old(prisma.bookmarks)
      ensures Owns(old(prisma.bookmarks), userId, bookmarkId) ==>
        && r == Ok(Patch(old(prisma.bookmarks[bookmarkId]), body))
        && r.value.id == bookmarkId && r.value.userId == userId
        && prisma.bookmarks == old(prisma.bookmarks)[bookmarkId := r.value]
        && GetBookmarkById(userId, bookmarkId) == Some(r.value)
        && |GetBookmarks(userId)| == |old(GetBookmarks(userId))|
      ensures forall other :: other != userId ==> GetBookmarks(other) == old(GetBookmarks(other))
    {
      var found := if bookmarkId in prisma.bookmarks then Some(prisma.bookmarks[bookmarkId]) else None;
      if found.None? || found.value.userId != userId {
        return Err(Forbidden(AccessDenied));
      }
      var b := Patch(found.value, body);
      ghost var t := prisma.bookmarks;
      prisma.bookmarks := prisma.bookmarks[bookmarkId := b];
      OwnedAfterUpdate(t, userId, b, prisma.nextBookmarkId);
      OthersUnaffected(t, prisma.bookmarks, userId, bookmarkId, prisma.nextBookmarkId);
      r := Ok(b);
    }

    /** Look the row up by id, refuse unless the caller owns it, then `delete` it and return it. */
    method DeleteBookmarkById(userId: int, bookmarkId: int) returns (r: Result<Bookmark, Failure>)
      requires prisma.Valid()
      modifies prisma`bookmarks
      ensures prisma.Valid()
      ensures !Owns(old(prisma.bookmarks), userId, bookmarkId) ==>
        r == Err(Forbidden(AccessDenied)) && prisma.bookmarks == old(prisma.bookmarks)
      ensures Owns(old(prisma.bookmarks), userId, bookmarkId) ==>
        && r == Ok(old(prisma.bookmarks[bookmarkId]))
        && prisma.bookmarks == old(prisma.bookmarks) - {bookmarkId}
        && GetBookmarkById(userId, bookmarkId) == None
        && r.value !in GetBookmarks(userId)
        && |GetBookmarks(userId)| == |old(GetBookmarks(userId))| - 1
      ensures forall other :: other != userId ==> GetBookmarks(other) == old(GetBookmarks(other))
    {
      var found := if bookmarkId in prisma.bookmarks then Some(prisma.bookmarks[bookmarkId]) else None;
      if found.None? || found.value.userId != userId {
        return Err(Forbidden(AccessDenied));
      }
      ghost var t := prisma.bookmarks;
      prisma.bookmarks := prisma.bookmarks - {bookmarkId};
      OwnedAfterRemove(t, userId, bookmarkId, prisma.nextBookmarkId);
      OthersUnaffected(t, prisma.bookmarks, userId, bookmarkId, prisma.nextBookmarkId);
      r := Ok(found.value);
    }
  }
}
