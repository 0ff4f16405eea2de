/**
 * The folder service: listing, lookup, creation, update, sorting and the recursive removal of a
 * folder together with everything below it and every bookmark inside any of those folders.
 */
module FolderService {
  import opened Common
  import opened Tables
  import opened Query
  import opened FolderTree
  import FolderRepository
  import BookmarkRepository

  /** The errors the service throws: FOLDER_EMPTY, FOLDER_NOT_FOUND and UPDATE_FOLDER. */
  datatype FolderError = FolderEmpty | FolderNotFound | UpdateFolderFailed

  /**
   * findAllFolders: the user's live top-level folders with every column. An empty list is a
   * result, not an error.
   */
  function FindAllFolders(folders: map<int, Folder>, userId: int): (r: seq<Keyed<Folder>>)
    ensures KeysOf(r) == set k | k in folders && folders[k].userId == userId && folders[k].parent == None && !folders[k].isDeleted
    ensures forall e :: e in r ==> e.id in folders && e.row == folders[e.id]
    ensures Ascending(r)
  {
    Select(folders, (f: Folder) => FolderRepository.LiveIn(f, userId, None), (f: Folder) => f)
  }

  /** findAllNestedFolders: the user's live folders directly inside parentFolderId. */
  function FindAllNestedFolders(folders: map<int, Folder>, userId: int, parentFolderId: int): (r: seq<Keyed<Folder>>)
    ensures KeysOf(r) == set k | k in folders && folders[k].userId == userId && folders[k].parent == Some(parentFolderId) && !folders[k].isDeleted
    ensures forall e :: e in r ==> e.id in folders && e.row == folders[e.id]
    ensures Ascending(r)
  {
    Select(folders, (f: Folder) => FolderRepository.LiveIn(f, userId, Some(parentFolderId)), (f: Folder) => f)
  }

  /** The service and the repository list the same folders in the same order. */
  lemma ListingsAgree(folders: map<int, Folder>, userId: int, parentFolderId: int)
    ensures var s, r := FindAllFolders(folders, userId), FolderRepository.FetchAllParent(folders, userId);
      |s| == |r| && forall i :: 0 <= i < |s| ==> r[i] == Keyed(s[i].id, FolderRepository.Summary(s[i].row))
    ensures var s, r := FindAllNestedFolders(folders, userId, parentFolderId), FolderRepository.FetchAllNested(folders, userId, parentFolderId);
      |s| == |r| && forall i :: 0 <= i < |s| ==> r[i] == Keyed(s[i].id, FolderRepository.Summary(s[i].row))
  {
    SelectProject(folders, (f: Folder) => FolderRepository.LiveIn(f, userId, None), (f: Folder) => f, FolderRepository.Summary);
    SelectProject(folders, (f: Folder) => FolderRepository.LiveIn(f, userId, Some(parentFolderId)), (f: Folder) => f, FolderRepository.Summary);
    var s, r := FindAllFolders(folders, userId), FolderRepository.FetchAllParent(folders, userId);
    forall i | 0 <= i < |s| ensures r[i] == Keyed(s[i].id, FolderRepository.Summary(s[i].row)) {
      assert s[i] in s && r[i] in r;
    }
    var s', r' := FindAllNestedFolders(folders, userId, parentFolderId), FolderRepository.FetchAllNested(folders, userId, parentFolderId);
    forall i | 0 <= i < |s'| ensures r'[i] == Keyed(s'[i].id, FolderRepository.Summary(s'[i].row)) {
      assert s'[i] in s' && r'[i] in r';
    }
  }

  /** findFolderById: the live folder with that key, or FOLDER_NOT_FOUND. */
  function FindFolderById(folders: map<int, Folder>, folderId: int): (r: Result<Keyed<Folder>, FolderError>)
    ensures r.Ok? <==> folderId in folders && !folders[folderId].isDeleted
    ensures r.Ok? ==> r.value == Keyed(folderId, folders[folderId])
    ensures r.Err? ==> r.error == FolderNotFound
  {
    match Lookup(folders, folderId, (f: Folder) => !f.isDeleted, (f: Folder) => f)
    case Some(e) => Ok(e)
    case None => Err(FolderNotFound)
  }

  /**
   * addFolders: inserts exactly one row under a fresh key and returns it as re-read by that key;
   * the re-read fails with FOLDER_NOT_FOUND when the inserted row is itself marked deleted.
   */
  method AddFolders(db: Db, data: Folder) returns (r: Result<Keyed<Folder>, FolderError>)
    requires db.Valid()
    modifies db`folders, db`nextFolderId
    ensures db.Valid()
    ensures old(db.nextFolderId) !in old(db.folders)
    ensures db.folders == old(db.folders)[old(db.nextFolderId) := data]
    ensures r == if data.isDeleted then Err(FolderNotFound) else Ok(Keyed(old(db.nextFolderId), data))
  {
    var folderId := FolderRepository.Create(db, data);
    r := FindFolderById(db.folders, folderId);
  }

  /**
   * updateFolder: UPDATE_FOLDER when no row has the key, and nothing changes; otherwise only that
   * row takes the given columns and the row is re-read by its key.
   */
  method UpdateFolder(db: Db, data: FolderPatch, folderId: int) returns (r: Result<Keyed<Folder>, FolderError>)
    requires db.Valid()
    modifies db`folders
    ensures db.Valid()
    ensures folderId !in old(db.folders) ==> r == Err(UpdateFolderFailed) && db.folders == old(db.folders)
    ensures folderId in old(db.folders) ==>
      var updated := PatchFolder(old(db.folders)[folderId], data);
      && db.folders == old(db.folders)[folderId := updated]
      && r == if updated.isDeleted then Err(FolderNotFound) else Ok(Keyed(folderId, updated))
  {
    var count := FolderRepository.Update(db, data, folderId);
    if count == 0 {
      r := Err(UpdateFolderFailed);
    } else {
      r := FindFolderById(db.folders, folderId);
    }
  }

  /** The folders table after removing folderId: the whole subtree marked deleted. */
  ghost function CascadeFolders(folders: map<int, Folder>, folderId: int): map<int, Folder> {
    MarkFolders(folders, Subtree(LinksOf(folders), folderId))
  }

  /** The bookmarks table after removing folderId: every bookmark of a folder in the subtree marked. */
  ghost function CascadeBookmarks(folders: map<int, Folder>, bookmarks: map<int, Bookmark>, folderId: int): map<int, Bookmark> {
    MarkBookmarks(bookmarks, Subtree(LinksOf(folders), folderId))
  }

  /**
   * removeFolder: removes every child (all folders whose parent is folderId, of any owner, deleted
   * or not) recursively, then marks folderId itself and every bookmark in it. The result marks
   * exactly the subtree of folderId and the bookmarks of its folders. It ends only when the
   * parent links are acyclic.
   */
  method RemoveFolder(db: Db, folderId: int)
    requires db.Valid()
    requires Acyclic(LinksOf(db.folders))
    modifies db`folders, db`bookmarks
    ensures db.Valid()
    ensures db.folders == CascadeFolders(old(db.folders), folderId)
    ensures db.bookmarks == CascadeBookmarks(old(db.folders), old(db.bookmarks), folderId)
    decreases |Descendants(LinksOf(db.folders), folderId)|, 1
  {
    ghost var links := LinksOf(db.folders);
    ghost var folders0, bookmarks0 := db.folders, db.bookmarks;
    var subfolders := FolderRepository.FetchAllByFolderId(db.folders, folderId);
    RemoveSubfolders(db, folderId, subfolders);
    var _ := FolderRepository.Remove(db, folderId);
    var _ := BookmarkRepository.RemoveByFolderId(db, folderId);
    CascadeFinish(links, folders0, bookmarks0, folderId);
  }

  /** The loop of removeFolder: each subfolder in turn is removed with everything below it. */
  method RemoveSubfolders(db: Db, folderId: int, subfolders: seq<Keyed<Folder>>)
    requires db.Valid()
    requires Acyclic(LinksOf(db.folders))
    requires KeysOf(subfolders) == Children(LinksOf(db.folders), folderId)
    modifies db`folders, db`bookmarks
    ensures db.Valid()
    ensures db.folders == MarkFolders(old(db.folders), Descendants(LinksOf(old(db.folders)), folderId))
    ensures db.bookmarks == MarkBookmarks(old(db.bookmarks), Descendants(LinksOf(old(db.folders)), folderId))
    decreases |Descendants(LinksOf(db.folders), folderId)|, 0
  {
    ghost var links := LinksOf(db.folders);
    ghost var folders0, bookmarks0 := db.folders, db.bookmarks;
    ghost var kids := Ids(subfolders);
    ghost var done: set<int> := {};
    var i := 0;
    while i < |subfolders|
      invariant 0 <= i <= |subfolders|
      invariant db.Valid()
      invariant done == UnionSubtrees(links, kids[..i])
      invariant db.folders == MarkFolders(folders0, done)
      invariant db.bookmarks == MarkBookmarks(bookmarks0, done)
      invariant LinksOf(db.folders) == links
    {
      var child := subfolders[i].id;
      assert subfolders[i] in subfolders;
      DescendantsShrink(links, folderId, child);
      ghost var before, beforeBookmarks := db.folders, db.bookmarks;
      RemoveFolder(db, child);
      CascadeStep(links, folders0, bookmarks0, done, child, before, beforeBookmarks, db.folders, db.bookmarks);
      UnionSubtreesNext(links, kids, i);
      done := done + Subtree(links, child);
      i := i + 1;
    }
    assert kids[..i] == kids;
    IdsKeys(subfolders);
    SubtreeSplit(links, folderId, kids);
  }

  /** Removing one more child's subtree extends the set of subtrees already marked. */
  lemma CascadeStep(links: Links, folders0: map<int, Folder>, bookmarks0: map<int, Bookmark>, done: set<int>, child: int,
                    before: map<int, Folder>, beforeBookmarks: map<int, Bookmark>, after: map<int, Folder>, afterBookmarks: map<int, Bookmark>)
    requires LinksOf(folders0) == links
    requires before == MarkFolders(folders0, done) && beforeBookmarks == MarkBookmarks(bookmarks0, done)
    requires after == CascadeFolders(before, child) && afterBookmarks == CascadeBookmarks(before, beforeBookmarks, child)
    ensures after == MarkFolders(folders0, done + Subtree(links, child))
    ensures afterBookmarks == MarkBookmarks(bookmarks0, done + Subtree(links, child))
    ensures LinksOf(after) == links
  {
    MarkKeepsLinks(folders0, done);
    MarkFoldersTwice(folders0, done, Subtree(links, child));
    MarkBookmarksTwice(bookmarks0, done, Subtree(links, child));
    MarkKeepsLinks(folders0, done + Subtree(links, child));
  }

  /** Once everything below folderId is marked, marking folderId itself completes its subtree. */
  lemma CascadeFinish(links: Links, folders: map<int, Folder>, bookmarks: map<int, Bookmark>, folderId: int)
    ensures MarkFolders(MarkFolders(folders, Descendants(links, folderId)), {folderId}) == MarkFolders(folders, Subtree(links, folderId))
    ensures MarkBookmarks(MarkBookmarks(bookmarks, Descendants(links, folderId)), {folderId}) == MarkBookmarks(bookmarks, Subtree(links, folderId))
  {
    MarkFoldersTwice(folders, Descendants(links, folderId), {folderId});
    MarkBookmarksTwice(bookmarks, Descendants(links, folderId), {folderId});
  }

  /**
   * After the removal a folder is marked exactly when it was already marked or lies in the
   * subtree, and a bookmark exactly when it was already marked or sits in a folder of the subtree.
   * No other column of any row changes.
   */
  lemma CascadeMarksSubtree(folders: map<int, Folder>, bookmarks: map<int, Bookmark>, folderId: int)
    ensures var s, f, b := Subtree(LinksOf(folders), folderId), CascadeFolders(folders, folderId), CascadeBookmarks(folders, bookmarks, folderId);
      && f.Keys == folders.Keys && b.Keys == bookmarks.Keys
      && (forall k :: k in folders ==> f[k].isDeleted == (folders[k].isDeleted || k in s))
      && (forall k :: k in bookmarks ==> b[k].isDeleted == (bookmarks[k].isDeleted || bookmarks[k].folderId in s))
      && (forall k :: k in folders && k !in s ==> f[k] == folders[k])
      && (forall k :: k in bookmarks && bookmarks[k].folderId !in s ==> b[k] == bookmarks[k])
  {
    var s, f, b := Subtree(LinksOf(folders), folderId), CascadeFolders(folders, folderId), CascadeBookmarks(folders, bookmarks, folderId);
    forall k | k in folders && k !in s ensures f[k] == folders[k] {
      assert f[k].(isDeleted := folders[k].isDeleted) == folders[k];
    }
    forall k | k in bookmarks && bookmarks[k].folderId !in s ensures b[k] == bookmarks[k] {
      assert b[k].(isDeleted := bookmarks[k].isDeleted) == bookmarks[k];
    }
  }

  /** Removing the same folder a second time changes nothing. */
  lemma CascadeIdempotent(folders: map<int, Folder>, bookmarks: map<int, Bookmark>, folderId: int)
    ensures CascadeFolders(CascadeFolders(folders, folderId), folderId) == CascadeFolders(folders, folderId)
    ensures CascadeBookmarks(CascadeFolders(folders, folderId), CascadeBookmarks(folders, bookmarks, folderId), folderId)
         == CascadeBookmarks(folders, bookmarks, folderId)
  {
    var s := Subtree(LinksOf(folders), folderId);
    MarkKeepsLinks(folders, s);
    MarkFoldersTwice(folders, s, s);
    MarkBookmarksTwice(bookmarks, s, s);
    assert s + s == s;
  }

  /**
   * Removing an id that no folder has, that no folder names as parent and that no bookmark names
   * as folder changes nothing.
   */
  lemma CascadeUnknownIdNoOp(folders: map<int, Folder>, bookmarks: map<int, Bookmark>, folderId: int)
    requires folderId !in folders
    requires forall k :: k in folders ==> folders[k].parent != Some(folderId)
    requires forall k :: k in bookmarks ==> bookmarks[k].folderId != folderId
    ensures CascadeFolders(folders, folderId) == folders
    ensures CascadeBookmarks(folders, bookmarks, folderId) == bookmarks
  {
    var links := LinksOf(folders);
    forall y | y in links ensures links[y] != Some(folderId) {
      assert links[y] == folders[y].parent;
    }
    assert Children(links, folderId) == {};
    LeafHasNoDescendants(links, folderId);
    CascadeMarksSubtree(folders, bookmarks, folderId);
    var b := CascadeBookmarks(folders, bookmarks, folderId);
    forall k | k in bookmarks ensures b[k] == bookmarks[k] {
    }
  }

  /**
   * The rows removed are exactly those a walk down the child links reaches: the subtree contains
   * folderId, is closed under taking children, and lies inside every set that is.
   */
  lemma CascadeReachesExactlySubtree(folders: map<int, Folder>, folderId: int, s: set<int>)
    ensures folderId in Subtree(LinksOf(folders), folderId)
    ensures forall y, z :: y in Subtree(LinksOf(folders), folderId) && z in Children(LinksOf(folders), y) ==> z in Subtree(LinksOf(folders), folderId)
    ensures folderId in s && (forall y :: y in s ==> Children(LinksOf(folders), y) <= s) ==> Subtree(LinksOf(folders), folderId) <= s
  {
    var links := LinksOf(folders);
    forall y, z | y in Subtree(links, folderId) && z in Children(links, y) ensures z in Subtree(links, folderId) {
      SubtreeClosed(links, folderId, y, z);
    }
    if folderId in s && (forall y :: y in s ==> Children(links, y) <= s) {
      SubtreeLeast(links, folderId, s);
    }
  }

  /**
   * The hierarchy A > B > X with Y a sibling of X under B, plus an unrelated folder Z: removing A
   * marks A, B, X and Y and leaves Z as it was.
   */
  lemma RemoveExample()
    ensures
      var f := Folder("f", 1, 1, None, false, "u", "u", 0);
      var folders := map[1 := f, 2 := f.(parent := Some(1)), 3 := f.(parent := Some(2)), 4 := f.(parent := Some(2)), 5 := f];
      var after := CascadeFolders(folders, 1);
      after[1].isDeleted && after[2].isDeleted && after[3].isDeleted && after[4].isDeleted && after[5] == f
  {
    var f := Folder("f", 1, 1, None, false, "u", "u", 0);
    var folders := map[1 := f, 2 := f.(parent := Some(1)), 3 := f.(parent := Some(2)), 4 := f.(parent := Some(2)), 5 := f];
    var links := LinksOf(folders);
    ChildBelow(links, 1, 2);
    BelowExtend(links, 1, 2, 3);
    BelowExtend(links, 1, 2, 4);
    assert {1, 2, 3, 4} <= Subtree(links, 1);
    var s := {1, 2, 3, 4};
    forall y | y in s ensures Children(links, y) <= s {
      ChildrenOfTable(folders, y);
    }
    SubtreeLeast(links, 1, s);
    CascadeMarksSubtree(folders, map[], 1);
  }

  /**
   * sortByDate: the user's live folders inside folderId ordered by `created_at` in the given
   * direction; FOLDER_EMPTY when there are none.
   */
  function SortByDate(userId: int, folderId: int, dir: Direction, folders: map<int, Folder>): (r: Result<seq<Keyed<Folder>>, FolderError>)
    ensures r.Err? <==> forall k :: k in folders ==> !FolderRepository.LiveIn(folders[k], userId, Some(folderId))
    ensures r.Err? ==> r.error == FolderEmpty
    ensures r.Ok? ==> r.value == FolderRepository.SortBy(FolderRepository.CreatedAt, userId, folderId, dir, folders)
  {
    SortedOrEmpty(FolderRepository.CreatedAt, userId, folderId, dir, folders)
  }

  /** sortByAlphabet: the same folders ordered by `name`; FOLDER_EMPTY when there are none. */
  function SortByAlphabet(userId: int, folderId: int, dir: Direction, folders: map<int, Folder>): (r: Result<seq<Keyed<Folder>>, FolderError>)
    ensures r.Err? <==> forall k :: k in folders ==> !FolderRepository.LiveIn(folders[k], userId, Some(folderId))
    ensures r.Err? ==> r.error == FolderEmpty
    ensures r.Ok? ==> r.value == FolderRepository.SortBy(FolderRepository.Name, userId, folderId, dir, folders)
  {
    SortedOrEmpty(FolderRepository.Name, userId, folderId, dir, folders)
  }

  function SortedOrEmpty(column: FolderRepository.FolderColumn, userId: int, folderId: int, dir: Direction, folders: map<int, Folder>): (r: Result<seq<Keyed<Folder>>, FolderError>)
    ensures r.Err? <==> forall k :: k in folders ==> !FolderRepository.LiveIn(folders[k], userId, Some(folderId))
    ensures r.Err? ==> r.error == FolderEmpty
    ensures r.Ok? ==> r.value == FolderRepository.SortBy(column, userId, folderId, dir, folders)
  {
    var sorted := FolderRepository.SortBy(column, userId, folderId, dir, folders);
    assert sorted == [] <==> KeysOf(sorted) == {};
    if |sorted| == 0 then Err(FolderEmpty) else Ok(sorted)
  }
}
