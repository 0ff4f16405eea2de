/**
 * The bookmark repository: the statements issued against the bookmarks table, including the
 * "recently clicked" queries, which consider only bookmarks whose `click_date` is set.
 */
module BookmarkRepository {
  import opened Common
  import opened Tables
  import opened Query
  import opened Text

  /** `url, image_id, user_id, folder_id, chip_id, title, date` beside the id. */
  datatype BookmarkView = BookmarkView(url: string, imageId: int, userId: int, folderId: int, chipId: int, title: string, date: int)

  function View(b: Bookmark): BookmarkView {
    BookmarkView(b.url, b.imageId, b.userId, b.folderId, b.chipId, b.title, b.date)
  }

  /** `url, image_id, folder_id, title, date` beside the id: the listing of one folder. */
  datatype FolderEntry = FolderEntry(url: string, imageId: int, folderId: int, title: string, date: int)

  function Entry(b: Bookmark): FolderEntry {
    FolderEntry(b.url, b.imageId, b.folderId, b.title, b.date)
  }

  /** `title, url`, without the id: the result of a title search. */
  datatype TitleUrl = TitleUrl(title: string, url: string)

  function TitleAndUrl(b: Bookmark): TitleUrl {
    TitleUrl(b.title, b.url)
  }

  /** A column of the bookmarks table that `orderBy` can name. */
  datatype BookmarkColumn = Id | Title | Url | Date | ImageId | UserId | FolderId | ChipId | ClickDate | CreatedBy | UpdatedBy

  function BookmarkKey(c: BookmarkColumn, e: Keyed<Bookmark>): SortKey {
    match c
    case Id => Num(e.id)
    case Title => Text(e.row.title)
    case Url => Text(e.row.url)
    case Date => Num(e.row.date)
    case ImageId => Num(e.row.imageId)
    case UserId => Num(e.row.userId)
    case FolderId => Num(e.row.folderId)
    case ChipId => Num(e.row.chipId)
    case ClickDate => if e.row.clickDate.Some? then Num(e.row.clickDate.value) else Null
    case CreatedBy => Text(e.row.createdBy)
    case UpdatedBy => Text(e.row.updatedBy)
  }

  /** `LOWER(title) LIKE LOWER('%q%')`, with q free of the wildcards `%` and `_`. */
  predicate TitleMatches(b: Bookmark, q: string) {
    Contains(Lower(b.title), Lower(q))
  }

  /** A live bookmark that has been opened: a member of the recently-clicked list. */
  predicate Clicked(b: Bookmark) {
    !b.isDeleted && b.clickDate.Some?
  }

  /** fetchById: the bookmark with that key unless absent or soft-deleted; never an error. */
  function FetchById(bookmarks: map<int, Bookmark>, bookmarkId: int): (r: Option<Keyed<BookmarkView>>)
    ensures r.Some? <==> bookmarkId in bookmarks && !bookmarks[bookmarkId].isDeleted
    ensures r.Some? ==> r.value == Keyed(bookmarkId, View(bookmarks[bookmarkId]))
  {
    Lookup(bookmarks, bookmarkId, (b: Bookmark) => !b.isDeleted, View)
  }

  /** fetchAll: the user's live bookmarks. */
  function FetchAll(bookmarks: map<int, Bookmark>, userId: int): (r: seq<Keyed<BookmarkView>>)
    ensures KeysOf(r) == set k | k in bookmarks && bookmarks[k].userId == userId && !bookmarks[k].isDeleted
    ensures forall e :: e in r ==> e.id in bookmarks && e.row == View(bookmarks[e.id])
    ensures Ascending(r)
  {
    Select(bookmarks, (b: Bookmark) => b.userId == userId && !b.isDeleted, View)
  }

  /** fetchByFolderId: the user's live bookmarks in the folder; both filters must hold. */
  function FetchByFolderId(bookmarks: map<int, Bookmark>, userId: int, folderId: int): (r: seq<Keyed<FolderEntry>>)
    ensures KeysOf(r) == set k | k in bookmarks && bookmarks[k].userId == userId && bookmarks[k].folderId == folderId && !bookmarks[k].isDeleted
    ensures forall e :: e in r ==> e.id in bookmarks && e.row == Entry(bookmarks[e.id])
    ensures Ascending(r)
  {
    Select(bookmarks, (b: Bookmark) => b.userId == userId && b.folderId == folderId && !b.isDeleted, Entry)
  }

  /** create: inserts the row under the next id of the table's sequence and returns that id. */
  method Create(db: Db, data: Bookmark) returns (bookmarkId: int)
    requires db.Valid()
    modifies db`bookmarks, db`nextBookmarkId
    ensures db.Valid()
    ensures bookmarkId == old(db.nextBookmarkId) && bookmarkId !in old(db.bookmarks)
    ensures db.bookmarks == old(db.bookmarks)[bookmarkId := data]
    ensures db.nextBookmarkId == bookmarkId + 1
  {
    bookmarkId := db.nextBookmarkId;
    db.bookmarks := db.bookmarks[bookmarkId := data];
    db.nextBookmarkId := bookmarkId + 1;
  }

  /** updateTitle: writes the given columns into the row with that key only. */
  method UpdateTitle(db: Db, data: BookmarkPatch, bookmarkId: int) returns (count: nat)
    requires db.Valid()
    modifies db`bookmarks
    ensures db.Valid()
    ensures count <= 1 && (count == 1 <==> bookmarkId in old(db.bookmarks))
    ensures db.bookmarks == UpdateAt(old(db.bookmarks), bookmarkId, (b: Bookmark) => PatchBookmark(b, data))
  {
    count := if bookmarkId in db.bookmarks then 1 else 0;
    db.bookmarks := UpdateAt(db.bookmarks, bookmarkId, (b: Bookmark) => PatchBookmark(b, data));
  }

  /**
   * remove: writes the payload into the row whose key is the payload's own id. Callers pass the
   * stored row with `isdeleted` set, which soft-deletes it.
   */
  method Remove(db: Db, bookmarkId: int, data: BookmarkPatch) returns (count: nat)
    requires db.Valid()
    modifies db`bookmarks
    ensures db.Valid()
    ensures count <= 1 && (count == 1 <==> bookmarkId in old(db.bookmarks))
    ensures db.bookmarks == UpdateAt(old(db.bookmarks), bookmarkId, (b: Bookmark) => PatchBookmark(b, data))
  {
    count := if bookmarkId in db.bookmarks then 1 else 0;
    db.bookmarks := UpdateAt(db.bookmarks, bookmarkId, (b: Bookmark) => PatchBookmark(b, data));
  }

  /**
   * removeByFolderid: sets `isdeleted` on every bookmark of the folder, whoever owns it, and
   * reports how many rows it touched; nothing else changes.
   */
  method RemoveByFolderId(db: Db, folderId: int) returns (count: nat)
    requires db.Valid()
    modifies db`bookmarks
    ensures db.Valid()
    ensures count == |set k | k in old(db.bookmarks) && old(db.bookmarks)[k].folderId == folderId|
    ensures db.bookmarks == MarkBookmarks(old(db.bookmarks), {folderId})
  {
    count := |set k | k in db.bookmarks && db.bookmarks[k].folderId == folderId|;
    db.bookmarks := MarkBookmarks(db.bookmarks, {folderId});
  }

  /** The keys of the live bookmarks in the folder whose title contains the query, ignoring case. */
  function TitleHits(bookmarks: map<int, Bookmark>, title: string, folderId: int): set<int> {
    set k | k in bookmarks && bookmarks[k].folderId == folderId && !bookmarks[k].isDeleted && TitleMatches(bookmarks[k], title)
  }

  /** The keys of the clicked live bookmarks whose title contains the query, ignoring case. */
  function RecentTitleHits(bookmarks: map<int, Bookmark>, title: string): set<int> {
    set k | k in bookmarks && Clicked(bookmarks[k]) && TitleMatches(bookmarks[k], title)
  }

  /**
   * fetchByTitle: title and url of the live bookmarks in the folder whose title contains the
   * query, ignoring case; any owner. One entry per matching bookmark, so two bookmarks with the
   * same title and url give two entries.
   */
  function FetchByTitle(bookmarks: map<int, Bookmark>, title: string, folderId: int): (r: seq<TitleUrl>)
    ensures forall t :: t in r <==> exists k :: k in bookmarks && bookmarks[k].folderId == folderId && !bookmarks[k].isDeleted && TitleMatches(bookmarks[k], title) && t == TitleAndUrl(bookmarks[k])
    ensures OnePerRow(r, bookmarks, TitleHits(bookmarks, title, folderId), TitleAndUrl)
    ensures |r| == |TitleHits(bookmarks, title, folderId)|
  {
    var matching := (b: Bookmark) => TitleMatches(b, title) && !b.isDeleted && b.folderId == folderId;
    ValuesExact(bookmarks, matching, TitleAndUrl);
    ValuesOnePerRow(bookmarks, matching, TitleAndUrl, TitleHits(bookmarks, title, folderId));
    Values(Select(bookmarks, matching, TitleAndUrl))
  }

  /** With two keys that both match, those two keys are the hits. */
  lemma TitleHitsPair(bookmarks: map<int, Bookmark>, j: int, k: int, title: string, folderId: int)
    requires bookmarks.Keys == {j, k} && bookmarks[j] == bookmarks[k]
    requires bookmarks[j].folderId == folderId && !bookmarks[j].isDeleted && TitleMatches(bookmarks[j], title)
    ensures TitleHits(bookmarks, title, folderId) == {j, k}
  {
    var hits := TitleHits(bookmarks, title, folderId);
    assert j in hits && k in hits;
  }

  /** When every bookmark has the same title and url, every search entry is that pair. */
  lemma TitleEntriesAlike(bookmarks: map<int, Bookmark>, b: Bookmark, title: string, folderId: int)
    requires forall x :: x in bookmarks ==> bookmarks[x] == b
    ensures forall u :: u in FetchByTitle(bookmarks, title, folderId) ==> u == TitleAndUrl(b)
  {
  }

  /** Two matching bookmarks with the same title and url are listed twice, not merged into one entry. */
  lemma SameTitleListedTwice(bookmarks: map<int, Bookmark>, j: int, k: int, title: string, folderId: int)
    requires bookmarks.Keys == {j, k} && j != k && bookmarks[j] == bookmarks[k]
    requires bookmarks[j].folderId == folderId && !bookmarks[j].isDeleted && TitleMatches(bookmarks[j], title)
    ensures var t := TitleAndUrl(bookmarks[j]); FetchByTitle(bookmarks, title, folderId) == [t, t]
  {
    TitleHitsPair(bookmarks, j, k, title, folderId);
    TitleEntriesAlike(bookmarks, bookmarks[j], title, folderId);
    assert |{j, k}| == 2;
    PairOf(FetchByTitle(bookmarks, title, folderId), TitleAndUrl(bookmarks[j]));
  }

  /** sortBy: the user's live bookmarks in the folder, all columns, ordered by the column. */
  function SortBy(column: BookmarkColumn, userId: int, folderId: int, dir: Direction, bookmarks: map<int, Bookmark>): (r: seq<Keyed<Bookmark>>)
    ensures KeysOf(r) == set k | k in bookmarks && bookmarks[k].userId == userId && !bookmarks[k].isDeleted && bookmarks[k].folderId == folderId
    ensures forall e :: e in r ==> e.id in bookmarks && e.row == bookmarks[e.id]
    ensures |r| == |KeysOf(r)|
    ensures SortedBy(r, (e: Keyed<Bookmark>) => BookmarkKey(column, e), dir)
  {
    SelectSorted(bookmarks, (b: Bookmark) => b.userId == userId && !b.isDeleted && b.folderId == folderId,
                 (e: Keyed<Bookmark>) => BookmarkKey(column, e), dir)
  }

  /** updateClickedDate: writes the payload (typically a new `click_date`) into that row only. */
  method UpdateClickedDate(db: Db, bookmarkId: int, data: BookmarkPatch) returns (count: nat)
    requires db.Valid()
    modifies db`bookmarks
    ensures db.Valid()
    ensures count <= 1 && (count == 1 <==> bookmarkId in old(db.bookmarks))
    ensures db.bookmarks == UpdateAt(old(db.bookmarks), bookmarkId, (b: Bookmark) => PatchBookmark(b, data))
  {
    count := if bookmarkId in db.bookmarks then 1 else 0;
    db.bookmarks := UpdateAt(db.bookmarks, bookmarkId, (b: Bookmark) => PatchBookmark(b, data));
  }

  /**
   * removeRecentlyClickedBookmark: writes the payload into the row only when both its key and its
   * owner match; a bookmark of another user is left as it was.
   */
  method RemoveRecentlyClickedBookmark(db: Db, bookmarkId: int, data: BookmarkPatch, userId: int) returns (count: nat)
    requires db.Valid()
    modifies db`bookmarks
    ensures db.Valid()
    ensures count <= 1
    ensures count == 1 <==> bookmarkId in old(db.bookmarks) && old(db.bookmarks)[bookmarkId].userId == userId
    ensures db.bookmarks.Keys == old(db.bookmarks).Keys
    ensures count == 1 ==> db.bookmarks[bookmarkId] == PatchBookmark(old(db.bookmarks)[bookmarkId], data)
    ensures forall k :: k in old(db.bookmarks) && (k != bookmarkId || count == 0) ==> db.bookmarks[k] == old(db.bookmarks)[k]
  {
    if bookmarkId in db.bookmarks && db.bookmarks[bookmarkId].userId == userId {
      count := 1;
      db.bookmarks := db.bookmarks[bookmarkId := PatchBookmark(db.bookmarks[bookmarkId], data)];
    } else {
      count := 0;
    }
  }

  /** sortRecentlyClickedBookmarkBy: the user's clicked live bookmarks, ordered by the column. */
  function SortRecentlyClickedBookmarkBy(column: BookmarkColumn, userId: int, dir: Direction, bookmarks: map<int, Bookmark>): (r: seq<Keyed<Bookmark>>)
    ensures KeysOf(r) == set k | k in bookmarks && bookmarks[k].userId == userId && Clicked(bookmarks[k])
    ensures forall e :: e in r ==> e.id in bookmarks && e.row == bookmarks[e.id]
    ensures |r| == |KeysOf(r)|
    ensures SortedBy(r, (e: Keyed<Bookmark>) => BookmarkKey(column, e), dir)
  {
    SelectSorted(bookmarks, (b: Bookmark) => b.userId == userId && Clicked(b), (e: Keyed<Bookmark>) => BookmarkKey(column, e), dir)
  }

  /** filterRecentlyClickedBookmarksByChip: the user's clicked live bookmarks carrying the chip. */
  function FilterRecentlyClickedBookmarksByChip(userId: int, chipId: int, bookmarks: map<int, Bookmark>): (r: seq<Keyed<Bookmark>>)
    ensures KeysOf(r) == set k | k in bookmarks && bookmarks[k].userId == userId && bookmarks[k].chipId == chipId && Clicked(bookmarks[k])
    ensures forall e :: e in r ==> e.id in bookmarks && e.row == bookmarks[e.id]
    ensures Ascending(r)
  {
    Select(bookmarks, (b: Bookmark) => b.userId == userId && b.chipId == chipId && Clicked(b), (b: Bookmark) => b)
  }

  /**
   * The chip filter returns exactly the members of the recently-clicked list that carry the chip,
   * whatever order that list is sorted in.
   */
  lemma FilterByChipIsSubsetOfRecent(userId: int, chipId: int, column: BookmarkColumn, dir: Direction, bookmarks: map<int, Bookmark>)
    ensures var recent := SortRecentlyClickedBookmarkBy(column, userId, dir, bookmarks);
      forall e :: e in FilterRecentlyClickedBookmarksByChip(userId, chipId, bookmarks) <==> e in recent && e.row.chipId == chipId
  {
    var recent := SortRecentlyClickedBookmarkBy(column, userId, dir, bookmarks);
    var byChip := FilterRecentlyClickedBookmarksByChip(userId, chipId, bookmarks);
    forall e ensures e in byChip <==> e in recent && e.row.chipId == chipId {
      RowsByKey(byChip, bookmarks, e);
      RowsByKey(recent, bookmarks, e);
    }
  }

  /**
   * fetchRecentlyClickedBookmarksByTittle: title and url of every clicked live bookmark whose title
   * contains the query, ignoring case, whoever owns it.
   */
  function FetchRecentlyClickedBookmarksByTitle(title: string, bookmarks: map<int, Bookmark>): (r: seq<TitleUrl>)
    ensures forall t :: t in r <==> exists k :: k in bookmarks && Clicked(bookmarks[k]) && TitleMatches(bookmarks[k], title) && t == TitleAndUrl(bookmarks[k])
    ensures OnePerRow(r, bookmarks, RecentTitleHits(bookmarks, title), TitleAndUrl)
    ensures |r| == |RecentTitleHits(bookmarks, title)|
  {
    var matching := (b: Bookmark) => TitleMatches(b, title) && Clicked(b);
    ValuesExact(bookmarks, matching, TitleAndUrl);
    ValuesOnePerRow(bookmarks, matching, TitleAndUrl, RecentTitleHits(bookmarks, title));
    Values(Select(bookmarks, matching, TitleAndUrl))
  }

  /** A query that no clicked title contains yields the empty list. */
  lemma RecentTitleSearchEmpty(title: string, bookmarks: map<int, Bookmark>)
    requires forall k :: k in bookmarks && Clicked(bookmarks[k]) ==> !TitleMatches(bookmarks[k], title)
    ensures FetchRecentlyClickedBookmarksByTitle(title, bookmarks) == []
  {
    var rows := Select(bookmarks, (b: Bookmark) => TitleMatches(b, title) && Clicked(b), TitleAndUrl);
    AscendingCount(rows);
    assert KeysOf(rows) == {};
  }

  /**
   * The search ignores case on both sides: the query "DOC" finds the clicked bookmark titled
   * "Docs", and finds nothing once that bookmark is no longer clicked.
   */
  lemma RecentTitleSearchExample()
    ensures var b := Bookmark("Docs", "https://d.example", 0, 1, 1, 1, 1, Some(5), false, "normal", "normal");
      && FetchRecentlyClickedBookmarksByTitle("DOC", map[7 := b]) == [TitleUrl("Docs", "https://d.example")]
      && FetchRecentlyClickedBookmarksByTitle("DOC", map[7 := b.(clickDate := None)]) == []
  {
    var b := Bookmark("Docs", "https://d.example", 0, 1, 1, 1, 1, Some(5), false, "normal", "normal");
    assert Lower("DOC") == "doc";
    assert Lower("Docs") == "docs";
    assert OccursAt(Lower(b.title), Lower("DOC"), 0);
    var r := FetchRecentlyClickedBookmarksByTitle("DOC", map[7 := b]);
    var rows := Select(map[7 := b], (x: Bookmark) => TitleMatches(x, "DOC") && Clicked(x), TitleAndUrl);
    assert KeysOf(rows) == {7};
    AscendingCount(rows);
    assert rows[0] in rows;
    assert r == [TitleUrl("Docs", "https://d.example")];
    RecentTitleSearchEmpty("DOC", map[7 := b.(clickDate := None)]);
  }

  /** After removeByFolderid, no bookmark of that folder is listed for any user. */
  lemma RemoveByFolderHidesFolder(bookmarks: map<int, Bookmark>, userId: int, folderId: int)
    ensures FetchByFolderId(MarkBookmarks(bookmarks, {folderId}), userId, folderId) == []
  {
    var r := FetchByFolderId(MarkBookmarks(bookmarks, {folderId}), userId, folderId);
    AscendingCount(r);
    assert KeysOf(r) == {};
  }
}
