/**
 * The folder repository: the statements the folder endpoints issue against the folders table.
 * Reads return the columns `id, name, image_id, user_id, folder_id` (or every column where the
 * statement selects none); writes address one row by its id.
 */
module FolderRepository {
  import opened Common
  import opened Tables
  import opened Query
  import FolderTree

  /** A folder as the repository selects it: `name, image_id, user_id, folder_id` beside its id. */
  datatype FolderSummary = FolderSummary(name: string, imageId: int, userId: int, parent: Option<int>)

  function Summary(f: Folder): FolderSummary {
    FolderSummary(f.name, f.imageId, f.userId, f.parent)
  }

  /** A column of the folders table that `orderBy` can name. */
  datatype FolderColumn = Id | Name | ImageId | UserId | ParentId | CreatedBy | UpdatedBy | CreatedAt

  /** The value of column c in a folder, under the collation of Query.KeyLe. */
  function FolderKey(c: FolderColumn, e: Keyed<Folder>): SortKey {
    match c
    case Id => Num(e.id)
    case Name => Text(e.row.name)
    case ImageId => Num(e.row.imageId)
    case UserId => Num(e.row.userId)
    case ParentId => if e.row.parent.Some? then Num(e.row.parent.value) else Null
    case CreatedBy => Text(e.row.createdBy)
    case UpdatedBy => Text(e.row.updatedBy)
    case CreatedAt => Num(e.row.createdAt)
  }

  /** A live folder of the user directly inside `parent` (None: at the top level). */
  predicate LiveIn(f: Folder, userId: int, parent: Option<int>) {
    f.userId == userId && f.parent == parent && !f.isDeleted
  }

  /** fetchAllParent: the user's live top-level folders, each once, in key order. */
  function FetchAllParent(folders: map<int, Folder>, userId: int): (r: seq<Keyed<FolderSummary>>)
    ensures KeysOf(r) == set k | k in folders && folders[k].userId == userId && folders[k].parent == None && !folders[k].isDeleted
    ensures forall e :: e in r ==> e.id in folders && e.row == Summary(folders[e.id])
    ensures Ascending(r)
  {
    Select(folders, (f: Folder) => LiveIn(f, userId, None), Summary)
  }

  /** fetchAllNested: the user's live folders whose parent is parentFolderId. */
  function FetchAllNested(folders: map<int, Folder>, userId: int, parentFolderId: int): (r: seq<Keyed<FolderSummary>>)
    ensures KeysOf(r) == set k | k in folders && folders[k].userId == userId && folders[k].parent == Some(parentFolderId) && !folders[k].isDeleted
    ensures forall e :: e in r ==> e.id in folders && e.row == Summary(folders[e.id])
    ensures Ascending(r)
  {
    Select(folders, (f: Folder) => LiveIn(f, userId, Some(parentFolderId)), Summary)
  }

  /** fetchById: the folder with that key unless it is absent or soft-deleted. */
  function FetchById(folders: map<int, Folder>, folderId: int): (r: Option<Keyed<FolderSummary>>)
    ensures r.Some? <==> folderId in folders && !folders[folderId].isDeleted
    ensures r.Some? ==> r.value == Keyed(folderId, Summary(folders[folderId]))
  {
    Lookup(folders, folderId, (f: Folder) => !f.isDeleted, Summary)
  }

  /**
   * fetchAllByFolderId: every folder whose parent is folderId, with all its columns, whoever owns
   * it and whether deleted or not; its keys are exactly the children of folderId in the hierarchy.
   */
  function FetchAllByFolderId(folders: map<int, Folder>, folderId: int): (r: seq<Keyed<Folder>>)
    ensures KeysOf(r) == set k | k in folders && folders[k].parent == Some(folderId)
    ensures KeysOf(r) == FolderTree.Children(FolderTree.LinksOf(folders), folderId)
    ensures forall e :: e in r ==> e.id in folders && e.row == folders[e.id]
    ensures Ascending(r)
  {
    var r := Select(folders, (f: Folder) => f.parent == Some(folderId), (f: Folder) => f);
    FolderTree.ChildKeys(folders, folderId, KeysOf(r));
    r
  }

  /** create: inserts the row under the next id of the table's sequence and returns that id. */
  method Create(db: Db, data: Folder) returns (folderId: int)
    requires db.Valid()
    modifies db`folders, db`nextFolderId
    ensures db.Valid()
    ensures folderId == old(db.nextFolderId) && folderId !in old(db.folders)
    ensures db.folders == old(db.folders)[folderId := data]
    ensures db.nextFolderId == folderId + 1
  {
    folderId := db.nextFolderId;
    db.folders := db.folders[folderId := data];
    db.nextFolderId := folderId + 1;
  }

  /** update: writes the given columns into the row with that key; reports how many rows matched. */
  method Update(db: Db, data: FolderPatch, folderId: int) returns (count: nat)
    requires db.Valid()
    modifies db`folders
    ensures db.Valid()
    ensures count <= 1 && (count == 1 <==> folderId in old(db.folders))
    ensures db.folders == UpdateAt(old(db.folders), folderId, (f: Folder) => PatchFolder(f, data))
  {
    count := if folderId in db.folders then 1 else 0;
    db.folders := UpdateAt(db.folders, folderId, (f: Folder) => PatchFolder(f, data));
  }

  /** remove: sets `isdeleted` on the row with that key and on no other; the row stays. */
  method Remove(db: Db, folderId: int) returns (count: nat)
    requires db.Valid()
    modifies db`folders
    ensures db.Valid()
    ensures count <= 1 && (count == 1 <==> folderId in old(db.folders))
    ensures db.folders == MarkFolders(old(db.folders), {folderId})
  {
    count := if folderId in db.folders then 1 else 0;
    db.folders := MarkFolders(db.folders, {folderId});
  }

  /**
   * sortBy: the user's live folders inside folderId, with all their columns, ordered by the
   * chosen column in the chosen direction.
   */
  function SortBy(column: FolderColumn, userId: int, folderId: int, dir: Direction, folders: map<int, Folder>): (r: seq<Keyed<Folder>>)
    ensures KeysOf(r) == set k | k in folders && folders[k].userId == userId && folders[k].parent == Some(folderId) && !folders[k].isDeleted
    ensures forall e :: e in r ==> e.id in folders && e.row == folders[e.id]
    ensures |r| == |KeysOf(r)|
    ensures SortedBy(r, (e: Keyed<Folder>) => FolderKey(column, e), dir)
  {
    SelectSorted(folders, (f: Folder) => LiveIn(f, userId, Some(folderId)), (e: Keyed<Folder>) => FolderKey(column, e), dir)
  }

  /** sortBy returns the rows of fetchAllNested, each once, reordered and with every column. */
  lemma SortByPermutesNested(column: FolderColumn, userId: int, folderId: int, dir: Direction, folders: map<int, Folder>)
    ensures var s, n := SortBy(column, userId, folderId, dir, folders), FetchAllNested(folders, userId, folderId);
      && |s| == |n|
      && KeysOf(s) == KeysOf(n)
      && (forall e :: e in s ==> Keyed(e.id, Summary(e.row)) in n)
      && (forall e :: e in n ==> exists d :: d in s && d.id == e.id && Summary(d.row) == e.row)
  {
    var s, n := SortBy(column, userId, folderId, dir, folders), FetchAllNested(folders, userId, folderId);
    AscendingCount(n);
    forall e | e in s ensures Keyed(e.id, Summary(e.row)) in n {
      assert e.id in KeysOf(n);
      var x :| x in n && x.id == e.id;
    }
    forall e | e in n ensures exists d :: d in s && d.id == e.id && Summary(d.row) == e.row {
      assert e.id in KeysOf(s);
      var d :| d in s && d.id == e.id;
    }
  }

  /** A row just created is returned by fetchById unless the inserted row is itself deleted. */
  lemma CreateThenFetch(folders: map<int, Folder>, folderId: int, data: Folder)
    ensures FetchById(folders[folderId := data], folderId) ==
      if data.isDeleted then None else Some(Keyed(folderId, Summary(data)))
  {
  }

  /** After remove, fetchById no longer finds the folder, and every other folder reads the same. */
  lemma RemoveHides(folders: map<int, Folder>, folderId: int, other: int)
    requires other != folderId
    ensures FetchById(MarkFolders(folders, {folderId}), folderId) == None
    ensures FetchById(MarkFolders(folders, {folderId}), other) == FetchById(folders, other)
  {
  }
}
