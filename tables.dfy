/**
 * The five tables of the relational store (users, images, folders, chips, bookmarks), the
 * partial-update payloads that `update(data)` writes, and the shared database handle every
 * repository and service issues its statements through.
 *
 * Rows carry no id: a table maps each primary key to its row. Timestamps (`date`, `click_date`,
 * `created_at`) are opaque ordered values, modelled as integers.
 */
module Tables {
  import opened Common

  datatype Folder = Folder(
    name: string,
    imageId: int,
    userId: int,
    parent: Option<int>,   // folder_id: the parent folder, None for a top-level folder
    isDeleted: bool,
    createdBy: string,
    updatedBy: string,
    createdAt: int)

  datatype Bookmark = Bookmark(
    title: string,
    url: string,
    date: int,
    imageId: int,
    userId: int,
    folderId: int,
    chipId: int,
    clickDate: Option<int>,   // None until the bookmark is opened
    isDeleted: bool,
    createdBy: string,
    updatedBy: string)

  datatype Chip = Chip(
    name: string,
    userId: int,
    folderId: int,
    isDeleted: bool,
    createdBy: string,
    updatedBy: string)

  datatype Image = Image(
    name: string,
    url: string,
    kind: string,   // the `type` column: user, folder or bookmark
    isDeleted: bool,
    createdBy: string,
    updatedBy: string)

  datatype User = User(
    username: string,
    email: string,
    password: string,
    imageId: int,
    role: string,
    isDeleted: bool,
    createdBy: string,
    updatedBy: string)

  /**
   * The payload of `update(data)`: a column whose field is None is left as it is (the query
   * builder skips undefined properties); a nullable column takes Some(None) to be set to NULL.
   */
  datatype FolderPatch = FolderPatch(
    name: Option<string>,
    imageId: Option<int>,
    userId: Option<int>,
    parent: Option<Option<int>>,
    isDeleted: Option<bool>,
    createdBy: Option<string>,
    updatedBy: Option<string>)

  datatype BookmarkPatch = BookmarkPatch(
    title: Option<string>,
    url: Option<string>,
    date: Option<int>,
    imageId: Option<int>,
    userId: Option<int>,
    folderId: Option<int>,
    chipId: Option<int>,
    clickDate: Option<Option<int>>,
    isDeleted: Option<bool>,
    createdBy: Option<string>,
    updatedBy: Option<string>)

  datatype ChipPatch = ChipPatch(
    name: Option<string>,
    userId: Option<int>,
    folderId: Option<int>,
    isDeleted: Option<bool>,
    createdBy: Option<string>,
    updatedBy: Option<string>)

  datatype ImagePatch = ImagePatch(
    name: Option<string>,
    url: Option<string>,
    kind: Option<string>,
    isDeleted: Option<bool>,
    createdBy: Option<string>,
    updatedBy: Option<string>)

  datatype UserPatch = UserPatch(
    username: Option<string>,
    email: Option<string>,
    password: Option<string>,
    imageId: Option<int>,
    role: Option<string>,
    isDeleted: Option<bool>,
    createdBy: Option<string>,
    updatedBy: Option<string>)

  function PatchFolder(f: Folder, p: FolderPatch): Folder {
    Folder(p.name.GetOr(f.name), p.imageId.GetOr(f.imageId), p.userId.GetOr(f.userId),
           p.parent.GetOr(f.parent), p.isDeleted.GetOr(f.isDeleted),
           p.createdBy.GetOr(f.createdBy), p.updatedBy.GetOr(f.updatedBy), f.createdAt)
  }

  function PatchBookmark(b: Bookmark, p: BookmarkPatch): Bookmark {
    Bookmark(p.title.GetOr(b.title), p.url.GetOr(b.url), p.date.GetOr(b.date),
             p.imageId.GetOr(b.imageId), p.userId.GetOr(b.userId), p.folderId.GetOr(b.folderId),
             p.chipId.GetOr(b.chipId), p.clickDate.GetOr(b.clickDate),
             p.isDeleted.GetOr(b.isDeleted), p.createdBy.GetOr(b.createdBy),
             p.updatedBy.GetOr(b.updatedBy))
  }

  function PatchChip(c: Chip, p: ChipPatch): Chip {
    Chip(p.name.GetOr(c.name), p.userId.GetOr(c.userId), p.folderId.GetOr(c.folderId),
         p.isDeleted.GetOr(c.isDeleted), p.createdBy.GetOr(c.createdBy),
         p.updatedBy.GetOr(c.updatedBy))
  }

  function PatchImage(i: Image, p: ImagePatch): Image {
    Image(p.name.GetOr(i.name), p.url.GetOr(i.url), p.kind.GetOr(i.kind),
          p.isDeleted.GetOr(i.isDeleted), p.createdBy.GetOr(i.createdBy),
          p.updatedBy.GetOr(i.updatedBy))
  }

  function PatchUser(u: User, p: UserPatch): User {
    User(p.username.GetOr(u.username), p.email.GetOr(u.email), p.password.GetOr(u.password),
         p.imageId.GetOr(u.imageId), p.role.GetOr(u.role), p.isDeleted.GetOr(u.isDeleted),
         p.createdBy.GetOr(u.createdBy), p.updatedBy.GetOr(u.updatedBy))
  }

  /** `update(...).where('id', id)` on a table: the row with that key, if any, becomes f(row). */
  function UpdateAt<T>(m: map<int, T>, id: int, f: T -> T): (r: map<int, T>)
    ensures r.Keys == m.Keys
    ensures id in m ==> r[id] == f(m[id])
    ensures forall k :: k in m && k != id ==> r[k] == m[k]
  {
    if id in m then m[id := f(m[id])] else m
  }

  /**
   * `update('isdeleted', true)` on every folder whose key is in `ids`. Only the flag changes:
   * it is set exactly on the rows named, and every other column of every row is kept.
   */
  function MarkFolders(m: map<int, Folder>, ids: set<int>): (r: map<int, Folder>)
    ensures r.Keys == m.Keys
    ensures forall k :: k in m ==> r[k].isDeleted == (m[k].isDeleted || k in ids)
    ensures forall k :: k in m ==> r[k].(isDeleted := m[k].isDeleted) == m[k]
  {
    map k | k in m :: if k in ids then m[k].(isDeleted := true) else m[k]
  }

  /**
   * `update('isdeleted', true)` on every bookmark whose folder_id is in `folderIds`, whoever owns
   * it. Only the flag changes, and only on those rows.
   */
  function MarkBookmarks(m: map<int, Bookmark>, folderIds: set<int>): (r: map<int, Bookmark>)
    ensures r.Keys == m.Keys
    ensures forall k :: k in m ==> r[k].isDeleted == (m[k].isDeleted || m[k].folderId in folderIds)
    ensures forall k :: k in m ==> r[k].(isDeleted := m[k].isDeleted) == m[k]
  {
    map k | k in m :: if m[k].folderId in folderIds then m[k].(isDeleted := true) else m[k]
  }

  /** Marking one set of folders and then another is marking their union. */
  lemma MarkFoldersTwice(m: map<int, Folder>, a: set<int>, b: set<int>)
    ensures MarkFolders(MarkFolders(m, a), b) == MarkFolders(m, a + b)
  {
    var lhs, rhs := MarkFolders(MarkFolders(m, a), b), MarkFolders(m, a + b);
    forall k | k in m ensures lhs[k] == rhs[k] {
      assert lhs[k].(isDeleted := m[k].isDeleted) == m[k];
    }
  }

  lemma MarkBookmarksTwice(m: map<int, Bookmark>, a: set<int>, b: set<int>)
    ensures MarkBookmarks(MarkBookmarks(m, a), b) == MarkBookmarks(m, a + b)
  {
    var lhs, rhs := MarkBookmarks(MarkBookmarks(m, a), b), MarkBookmarks(m, a + b);
    forall k | k in m ensures lhs[k] == rhs[k] {
      assert lhs[k].(isDeleted := m[k].isDeleted) == m[k];
    }
  }

  /** Every key of m is below n: the id sequence of the table has not handed n out yet. */
  ghost predicate KeysBelow<T>(m: map<int, T>, n: int) {
    forall k :: k in m ==> k < n
  }

  /**
   * The database handle: one map per table and, per table, the next value of its `increments('id')`
   * sequence. Every statement of the repositories and services reads or writes these fields.
   */
  class Db {
    var users: map<int, User>
    var images: map<int, Image>
    var folders: map<int, Folder>
    var chips: map<int, Chip>
    var bookmarks: map<int, Bookmark>
    var nextUserId: int
    var nextImageId: int
    var nextFolderId: int
    var nextChipId: int
    var nextBookmarkId: int

    /** No id sequence will hand out a key its table already holds. */
    ghost predicate Valid()
      reads this
    {
      && KeysBelow(users, nextUserId)
      && KeysBelow(images, nextImageId)
      && KeysBelow(folders, nextFolderId)
      && KeysBelow(chips, nextChipId)
      && KeysBelow(bookmarks, nextBookmarkId)
    }

    /** An empty database; every sequence starts at 1. */
    constructor ()
      ensures Valid()
      ensures users == map[] && images == map[] && folders == map[] && chips == map[] && bookmarks == map[]
      ensures nextUserId == 1 && nextImageId == 1 && nextFolderId == 1 && nextChipId == 1 && nextBookmarkId == 1
    {
      users, images, folders, chips, bookmarks := map[], map[], map[], map[], map[];
      nextUserId, nextImageId, nextFolderId, nextChipId, nextBookmarkId := 1, 1, 1, 1, 1;
    }
  }
}
