/**
 * The bookmark service: lookup and listing with every column, creation and update followed by a
 * re-read, and removal, which soft-deletes the row by writing it back whole with `isdeleted` set.
 */
module BookmarkService {
  import opened Common
  import opened Tables
  import opened Query
  import BookmarkRepository

  /** The errors the service throws: BOOKMARK_NOT_FOUND, UPDATE_FAILED and DELETE_FAILED. */
  datatype BookmarkError = BookmarkNotFound | UpdateFailed | DeleteFailed

  /** findBookmarkById: the live bookmark with that key and all its columns, or BOOKMARK_NOT_FOUND. */
  function FindBookmarkById(bookmarks: map<int, Bookmark>, bookmarkId: int): (r: Result<Keyed<Bookmark>, BookmarkError>)
    ensures r.Ok? <==> bookmarkId in bookmarks && !bookmarks[bookmarkId].isDeleted
    ensures r.Ok? ==> r.value == Keyed(bookmarkId, bookmarks[bookmarkId])
    ensures r.Err? ==> r.error == BookmarkNotFound
  {
    match Lookup(bookmarks, bookmarkId, (b: Bookmark) => !b.isDeleted, (b: Bookmark) => b)
    case Some(e) => Ok(e)
    case None => Err(BookmarkNotFound)
  }

  /** findBookmarks: the user's live bookmarks with every column; an empty list is not an error. */
  function FindBookmarks(bookmarks: map<int, Bookmark>, userId: int): (r: seq<Keyed<Bookmark>>)
    ensures KeysOf(r) == set k | k in bookmarks && bookmarks[k].userId == userId && !bookmarks[k].isDeleted
    ensures forall e :: e in r ==> e.id in bookmarks && e.row == bookmarks[e.id]
    ensures Ascending(r)
  {
    Select(bookmarks, (b: Bookmark) => b.userId == userId && !b.isDeleted, (b: Bookmark) => b)
  }

  /** findBookmarksByFolderId: the user's live bookmarks in one folder, with every column. */
  function FindBookmarksByFolderId(bookmarks: map<int, Bookmark>, userId: int, folderId: int): (r: seq<Keyed<Bookmark>>)
    ensures KeysOf(r) == set k | k in bookmarks && bookmarks[k].userId == userId && bookmarks[k].folderId == folderId && !bookmarks[k].isDeleted
    ensures forall e :: e in r ==> e.id in bookmarks && e.row == bookmarks[e.id]
    ensures Ascending(r)
  {
    Select(bookmarks, (b: Bookmark) => b.userId == userId && b.folderId == folderId && !b.isDeleted, (b: Bookmark) => b)
  }

  /** The service listings and the repository listings return the same bookmarks in the same order. */
  lemma ListingsAgree(bookmarks: map<int, Bookmark>, userId: int, folderId: int)
    ensures var s, r := FindBookmarks(bookmarks, userId), BookmarkRepository.FetchAll(bookmarks, userId);
      |s| == |r| && forall i :: 0 <= i < |s| ==> r[i] == Keyed(s[i].id, BookmarkRepository.View(s[i].row))
    ensures var s, r := FindBookmarksByFolderId(bookmarks, userId, folderId), BookmarkRepository.FetchByFolderId(bookmarks, userId, folderId);
      |s| == |r| && forall i :: 0 <= i < |s| ==> r[i] == Keyed(s[i].id, BookmarkRepository.Entry(s[i].row))
  {
    SelectProject(bookmarks, (b: Bookmark) => b.userId == userId && !b.isDeleted, (b: Bookmark) => b, BookmarkRepository.View);
    SelectProject(bookmarks, (b: Bookmark) => b.userId == userId && b.folderId == folderId && !b.isDeleted, (b: Bookmark) => b, BookmarkRepository.Entry);
    var s, r := FindBookmarks(bookmarks, userId), BookmarkRepository.FetchAll(bookmarks, userId);
    forall i | 0 <= i < |s| ensures r[i] == Keyed(s[i].id, BookmarkRepository.View(s[i].row)) {
      assert s[i] in s && r[i] in r;
    }
    var s', r' := FindBookmarksByFolderId(bookmarks, userId, folderId), BookmarkRepository.FetchByFolderId(bookmarks, userId, folderId);
    forall i | 0 <= i < |s'| ensures r'[i] == Keyed(s'[i].id, BookmarkRepository.Entry(s'[i].row)) {
      assert s'[i] in s' && r'[i] in r';
    }
  }

  /**
   * addBookmark: inserts exactly one row under a fresh key and returns it as re-read by that key;
   * the re-read fails with BOOKMARK_NOT_FOUND when the inserted row is itself marked deleted.
   */
  method AddBookmark(db: Db, data: Bookmark) returns (r: Result<Keyed<Bookmark>, BookmarkError>)
    requires db.Valid()
    modifies db`bookmarks, db`nextBookmarkId
    ensures db.Valid()
    ensures old(db.nextBookmarkId) !in old(db.bookmarks)
    ensures db.bookmarks == old(db.bookmarks)[old(db.nextBookmarkId) := data]
    ensures r == if data.isDeleted then Err(BookmarkNotFound) else Ok(Keyed(old(db.nextBookmarkId), data))
  {
    var bookmarkId := BookmarkRepository.Create(db, data);
    r := FindBookmarkById(db.bookmarks, bookmarkId);
  }

  /**
   * updateBookmark: UPDATE_FAILED when no row has the key, and nothing changes; otherwise only
   * that row takes the given columns, and it is re-read, which fails with BOOKMARK_NOT_FOUND when
   * the row is (or has just been) marked deleted. The update itself does not look at the flag.
   */
  method UpdateBookmark(db: Db, data: BookmarkPatch, bookmarkId: int) returns (r: Result<Keyed<Bookmark>, BookmarkError>)
    requires db.Valid()
    modifies db`bookmarks
    ensures db.Valid()
    ensures bookmarkId !in old(db.bookmarks) ==> r == Err(UpdateFailed) && db.bookmarks == old(db.bookmarks)
    ensures bookmarkId in old(db.bookmarks) ==>
      var updated := PatchBookmark(old(db.bookmarks)[bookmarkId], data);
      && db.bookmarks == old(db.bookmarks)[bookmarkId := updated]
      && r == if updated.isDeleted then Err(BookmarkNotFound) else Ok(Keyed(bookmarkId, updated))
  {
    // the same `update(data).where('id', id)` statement as the repository's updateTitle
    var count := BookmarkRepository.UpdateTitle(db, data, bookmarkId);
    if count == 0 {
      r := Err(UpdateFailed);
    } else {
      r := FindBookmarkById(db.bookmarks, bookmarkId);
    }
  }

  /** `{ ...row }`: a payload that names every column with the row's own value. */
  function WholeRow(b: Bookmark): (p: BookmarkPatch)
    ensures forall x: Bookmark :: PatchBookmark(x, p) == b
  {
    BookmarkPatch(Some(b.title), Some(b.url), Some(b.date), Some(b.imageId), Some(b.userId),
                  Some(b.folderId), Some(b.chipId), Some(b.clickDate), Some(b.isDeleted),
                  Some(b.createdBy), Some(b.updatedBy))
  }

  /**
   * removeBookmark: BOOKMARK_NOT_FOUND, and nothing changes, unless a live row has the key;
   * otherwise that row alone is written back with `isdeleted` set and the row as it was before
   * the removal is returned.
   */
  method RemoveBookmark(db: Db, bookmarkId: int) returns (r: Result<Keyed<Bookmark>, BookmarkError>)
    requires db.Valid()
    modifies db`bookmarks
    ensures db.Valid()
    ensures r.Ok? <==> bookmarkId in old(db.bookmarks) && !old(db.bookmarks)[bookmarkId].isDeleted
    ensures r.Err? ==> r.error == BookmarkNotFound && db.bookmarks == old(db.bookmarks)
    ensures r.Ok? ==>
      && r.value == Keyed(bookmarkId, old(db.bookmarks)[bookmarkId])
      && db.bookmarks == old(db.bookmarks)[bookmarkId := old(db.bookmarks)[bookmarkId].(isDeleted := true)]
  {
    var current := FindBookmarkById(db.bookmarks, bookmarkId);
    if current.Err? {
      return Err(current.error);
    }
    var count := BookmarkRepository.UpdateTitle(db, WholeRow(current.value.row.(isDeleted := true)), bookmarkId);
    if count == 0 {
      return Err(DeleteFailed);
    }
    r := current;
  }

  /**
   * A removed bookmark is no longer found, so removing it again fails; every other bookmark is
   * found exactly as before.
   */
  lemma RemoveThenFind(bookmarks: map<int, Bookmark>, bookmarkId: int, other: int)
    requires bookmarkId in bookmarks
    requires other != bookmarkId
    ensures var after := bookmarks[bookmarkId := bookmarks[bookmarkId].(isDeleted := true)];
      && FindBookmarkById(after, bookmarkId) == Err(BookmarkNotFound)
      && FindBookmarkById(after, other) == FindBookmarkById(bookmarks, other)
  {
  }

  /** A removed bookmark drops out of its owner's listing. */
  lemma RemoveHidesFromListing(bookmarks: map<int, Bookmark>, bookmarkId: int, userId: int)
    requires bookmarkId in bookmarks
    ensures KeysOf(FindBookmarks(bookmarks[bookmarkId := bookmarks[bookmarkId].(isDeleted := true)], userId))
         == KeysOf(FindBookmarks(bookmarks, userId)) - {bookmarkId}
  {
    var after := bookmarks[bookmarkId := bookmarks[bookmarkId].(isDeleted := true)];
    var a, b := FindBookmarks(after, userId), FindBookmarks(bookmarks, userId);
    forall k ensures k in KeysOf(a) <==> k in KeysOf(b) && k != bookmarkId {
      if k != bookmarkId && k in bookmarks {
        assert after[k] == bookmarks[k];
      }
    }
  }

  /** A removed bookmark drops out of its folder's listing. */
  lemma RemoveHidesFromFolderListing(bookmarks: map<int, Bookmark>, bookmarkId: int, userId: int, folderId: int)
    requires bookmarkId in bookmarks
    ensures KeysOf(FindBookmarksByFolderId(bookmarks[bookmarkId := bookmarks[bookmarkId].(isDeleted := true)], userId, folderId))
         == KeysOf(FindBookmarksByFolderId(bookmarks, userId, folderId)) - {bookmarkId}
  {
    var after := bookmarks[bookmarkId := bookmarks[bookmarkId].(isDeleted := true)];
    var a, b := FindBookmarksByFolderId(after, userId, folderId), FindBookmarksByFolderId(bookmarks, userId, folderId);
    forall k ensures k in KeysOf(a) <==> k in KeysOf(b) && k != bookmarkId {
      if k != bookmarkId && k in bookmarks {
        assert after[k] == bookmarks[k];
      }
    }
  }
}
