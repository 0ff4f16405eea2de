# Litmark store: a verified model

Litmark is a bookmark manager backend. Its core is a relational store of five tables: users, images, folders, chips and bookmarks. The repositories and services issue knex statements against these tables. Rows are never removed by the folder, bookmark, user and repository paths: they set an `isdeleted` flag, and reads skip flagged rows. The chip and image services are the exception. They look rows up without regard to the flag and delete rows outright.

Folders form a hierarchy through their nullable `folder_id` (the parent). Removing a folder removes, recursively, every folder whose parent it is, then flags the folder itself and every bookmark inside it. Beside the store sit two pure validators: the image `type` and file-extension checks, and the request schemas of the user endpoints, including the password rule.

The model in Dafny:

- `common.dfy`: Option, Result and Outcome wrappers, and `Keyed` (a row with its key).
- `text.dfy`: ASCII case folding, substring search (`LIKE '%q%'`), whole-word search (`\b…\b`), and a text collation.
- `query.dfy`: selection with projection over a table in ascending key order, lookup by key, and ordering by a sort key (an insertion sort).
- `tables.dfy`: the row and partial-update types, the flag-setting bulk updates, and the `Db` class. `Db` holds one map per table and one id sequence per table. Repository and service methods take a `Db` and name the fields they change in `modifies`.
- `folder_tree.dfy`: the parent links, what lies below a folder, and the facts the recursive removal needs.
- One file per repository and service, named after the source files. Reads are functions over the tables. Writes are methods on the `Db`.
- `image_validation.dfy` and `user_schema.dfy`: the validators.

## Model

| member | source | states |
|---|---|---|
| FolderRepository.FetchAllParent | src/entities/folder/folder.repository.ts:12-14 | exactly the keys of the user's live top-level folders, each once in ascending key order, projected to name, image_id, user_id, folder_id |
| FolderRepository.FetchAllNested | src/entities/folder/folder.repository.ts:28-30 | exactly the user's live folders whose parent is the given folder, projected, each once |
| FolderRepository.FetchById | src/entities/folder/folder.repository.ts:44-46 | a row is returned iff the key exists and is not flagged, and it is that row's projection |
| FolderRepository.FetchAllByFolderId | src/entities/folder/folder.repository.ts:55-57 | exactly the folders whose parent is the id (any owner, flagged or not), which are its children in the hierarchy, with every column |
| FolderRepository.Create | src/entities/folder/folder.repository.ts:67-70 | the row is inserted under the next id of the sequence, which no existing row holds; nothing else changes |
| FolderRepository.Update | src/entities/folder/folder.repository.ts:72-74 | only the row with that key takes the given columns; the count is 1 iff the key exists |
| FolderRepository.Remove | src/entities/folder/folder.repository.ts:76-78 | only that row gets the flag; every column of every row is otherwise kept |
| FolderRepository.SortBy | src/entities/folder/folder.repository.ts:80-82 | the user's live folders inside the folder, each once, with every column, sorted by the chosen column and direction |
| FolderRepository.SortByPermutesNested | src/entities/folder/folder.repository.ts:28-30 | sortBy returns the same folders as fetchAllNested, reordered |
| FolderRepository.CreateThenFetch | src/entities/folder/folder.repository.ts:67-70 | a created folder is found by its new key unless the inserted row is flagged |
| FolderRepository.RemoveHides | src/entities/folder/folder.repository.ts:76-78 | after remove the folder is no longer found, and every other folder is found as before |
| FolderService.FindAllFolders | src/entities/folder/folder.service.ts:10-15 | the user's live top-level folders with every column; an empty list is a result |
| FolderService.FindAllNestedFolders | src/entities/folder/folder.service.ts:17-22 | the user's live folders directly inside the parent, with every column |
| FolderService.ListingsAgree | src/entities/folder/folder.service.ts:10-22 | the service listings and the repository listings hold the same folders in the same order |
| FolderService.FindFolderById | src/entities/folder/folder.service.ts:31-36 | Ok with the full row iff the key exists and is not flagged, else FOLDER_NOT_FOUND |
| FolderService.AddFolders | src/entities/folder/folder.service.ts:44-51 | one row is inserted under a fresh key and returned as re-read; the re-read fails when the inserted row is flagged |
| FolderService.UpdateFolder | src/entities/folder/folder.service.ts:62-67 | UPDATE_FOLDER and no change for a missing key; otherwise only that row is patched and then re-read |
| FolderService.RemoveFolder | src/entities/folder/folder.service.ts:75-85 | the folders table ends with exactly the subtree of the folder flagged, and the bookmarks table with exactly the bookmarks of those folders flagged; no other column changes; terminates on acyclic links |
| FolderService.RemoveSubfolders | src/entities/folder/folder.service.ts:76-80 | the loop over the children flags exactly everything strictly below the folder, and the bookmarks in it |
| FolderService.CascadeMarksSubtree | src/entities/folder/folder.service.ts:75-85 | after removal a folder is flagged iff it was flagged already or lies in the subtree, and likewise each bookmark by its folder; unrelated rows are unchanged |
| FolderService.CascadeIdempotent | src/entities/folder/folder.service.ts:75-85 | removing the same folder twice changes nothing the second time |
| FolderService.CascadeUnknownIdNoOp | src/entities/folder/folder.service.ts:75-85 | removing an id no row has, names as parent or holds a bookmark is a no-op on both tables |
| FolderService.CascadeReachesExactlySubtree | src/entities/folder/folder.service.ts:75-85 | the removed set contains the folder, is closed under taking children, and lies inside every set that is |
| FolderService.RemoveExample | src/entities/folder/folder.service.ts:75-85 | in the hierarchy A > B > {X, Y} beside an unrelated Z, removing A flags A, B, X and Y and leaves Z unchanged |
| FolderService.SortByDate | src/entities/folder/folder.service.ts:102-106 | FOLDER_EMPTY iff the user has no live folder inside the folder; otherwise the repository's sort on created_at |
| FolderService.SortByAlphabet | src/entities/folder/folder.service.ts:123-127 | FOLDER_EMPTY iff there is no such folder; otherwise the repository's sort on name |
| FolderTree.DescendantsShrink | src/entities/folder/folder.service.ts:78-80 | on acyclic links, what lies below a child is a strictly smaller set than what lies below its parent, which is why the recursion ends |
| FolderTree.SelfParentCyclic | src/entities/folder/folder.service.ts:76-79 | a folder that is its own parent is a cycle, on which the recursion would not end |
| FolderTree.SubtreeSplit | src/entities/folder/folder.service.ts:76-80 | what lies below a folder is the union of its children's subtrees, listed in any order |
| BookmarkRepository.FetchById | src/entities/bookmark/bookmark.repository.ts:16-19 | a row is returned iff the key exists and is not flagged, projected to its eight columns |
| BookmarkRepository.FetchAll | src/entities/bookmark/bookmark.repository.ts:31-33 | exactly the user's live bookmarks, projected, each once in key order |
| BookmarkRepository.FetchByFolderId | src/entities/bookmark/bookmark.repository.ts:48-50 | exactly the user's live bookmarks in the folder, projected |
| BookmarkRepository.Create | src/entities/bookmark/bookmark.repository.ts:61-64 | the row is inserted under the next id of the sequence, which no existing row holds |
| BookmarkRepository.UpdateTitle | src/entities/bookmark/bookmark.repository.ts:78-80 | only the row with that key takes the given columns; the count is 1 iff the key exists |
| BookmarkRepository.Remove | src/entities/bookmark/bookmark.repository.ts:90-92 | only the row with the payload's id takes the payload |
| BookmarkRepository.RemoveByFolderId | src/entities/bookmark/bookmark.repository.ts:103-105 | every bookmark of the folder, of any owner, gets the flag and nothing else changes; the count is the number of such rows |
| BookmarkRepository.RemoveByFolderHidesFolder | src/entities/bookmark/bookmark.repository.ts:103-105 | after removeByFolderid the folder lists no bookmark for any user |
| BookmarkRepository.FetchByTitle | src/entities/bookmark/bookmark.repository.ts:107-109 | one title/url entry per live bookmark of the folder whose title contains the query, ignoring case, in ascending key order, so there are exactly as many entries as such bookmarks; a pair is listed iff some such bookmark has it; getBookmarksByTitle in bookmark.service.ts issues this same statement |
| BookmarkRepository.SameTitleListedTwice | src/entities/bookmark/bookmark.repository.ts:107-109 | two matching bookmarks with the same title and url give two equal entries, not one |
| BookmarkRepository.SortBy | src/entities/bookmark/bookmark.repository.ts:111-113 | the user's live bookmarks in the folder, each once, with every column, sorted by the chosen column |
| BookmarkRepository.UpdateClickedDate | src/entities/bookmark/bookmark.repository.ts:118-120 | only the row with the payload's id takes the payload |
| BookmarkRepository.RemoveRecentlyClickedBookmark | src/entities/bookmark/bookmark.repository.ts:122-124 | the row takes the payload iff its key and its owner both match; every other row, and a row of another user, is unchanged |
| BookmarkRepository.SortRecentlyClickedBookmarkBy | src/entities/bookmark/bookmark.repository.ts:126-128 | exactly the user's live bookmarks with a click date, each once, sorted by the chosen column |
| BookmarkRepository.FilterRecentlyClickedBookmarksByChip | src/entities/bookmark/bookmark.repository.ts:130-132 | exactly the user's live clicked bookmarks carrying the chip |
| BookmarkRepository.FilterByChipIsSubsetOfRecent | src/entities/bookmark/bookmark.repository.ts:126-132 | the chip filter returns exactly the members of the recently-clicked list that carry the chip |
| BookmarkRepository.FetchRecentlyClickedBookmarksByTitle | src/entities/bookmark/bookmark.repository.ts:134-136 | one title/url entry per clicked live bookmark, of any owner, whose title contains the query, ignoring case, in ascending key order, so there are exactly as many entries as such bookmarks; a pair is listed iff some such bookmark has it |
| BookmarkRepository.RecentTitleSearchEmpty | src/entities/bookmark/bookmark.repository.ts:134-136 | a query that no clicked title contains returns the empty list |
| BookmarkRepository.RecentTitleSearchExample | src/entities/bookmark/bookmark.repository.ts:134-136 | "DOC" finds the clicked bookmark titled "Docs", and nothing once it is unclicked |
| BookmarkService.FindBookmarkById | src/entities/bookmark/bookmark.service.ts:13-18 | Ok with the full row iff the key exists and is not flagged, else BOOKMARK_NOT_FOUND |
| BookmarkService.FindBookmarks | src/entities/bookmark/bookmark.service.ts:25-30 | exactly the user's live bookmarks with every column; never an error |
| BookmarkService.FindBookmarksByFolderId | src/entities/bookmark/bookmark.service.ts:42-47 | exactly the user's live bookmarks in the folder with every column; never an error |
| BookmarkService.ListingsAgree | src/entities/bookmark/bookmark.service.ts:25-47 | the service listings hold the same bookmarks, in the same order, as the repository's fetchAll and fetchByFolderId |
| BookmarkService.AddBookmark | src/entities/bookmark/bookmark.service.ts:56-63 | one row is inserted under a fresh key and returned as re-read; the re-read fails when the row is flagged |
| BookmarkService.UpdateBookmark | src/entities/bookmark/bookmark.service.ts:75-80 | UPDATE_FAILED and no change for a missing key; otherwise only that row is patched, flagged or not, then re-read, which fails if the row is flagged |
| BookmarkService.WholeRow | src/entities/bookmark/bookmark.service.ts:92 | the spread of a whole row, written into any row, yields exactly that row |
| BookmarkService.RemoveBookmark | src/entities/bookmark/bookmark.service.ts:88-96 | BOOKMARK_NOT_FOUND and no change unless a live row has the key; otherwise only that row gets the flag and the row as it was is returned |
| BookmarkService.RemoveThenFind | src/entities/bookmark/bookmark.service.ts:88-96 | a removed bookmark is not found again, so a second removal fails; other bookmarks are found as before |
| BookmarkService.RemoveHidesFromListing | src/entities/bookmark/bookmark.service.ts:25-30 | after removal the user's listing is the old listing without that bookmark |
| BookmarkService.RemoveHidesFromFolderListing | src/entities/bookmark/bookmark.service.ts:42-47 | after removal the folder's listing is the old listing without that bookmark |
| ChipRepository.FetchById | src/entities/chip/chip.repository.ts:15-17 | a row is returned iff the key exists and is not flagged, projected to name, user_id, folder_id |
| ChipRepository.FetchAll | src/entities/chip/chip.repository.ts:29-31 | exactly the user's live chips, projected, each once |
| ChipRepository.Create | src/entities/chip/chip.repository.ts:42-45 | the row is inserted under the next id of the sequence, which no existing row holds |
| ChipRepository.Update | src/entities/chip/chip.repository.ts:59-61 | only the row with that key takes the given columns; the count is 1 iff the key exists |
| ChipRepository.Remove | src/entities/chip/chip.repository.ts:72-74 | only that row gets the flag; the row stays |
| ChipRepository.RemoveHides | src/entities/chip/chip.repository.ts:72-74 | after remove the chip is neither fetched nor listed, and other chips read as before |
| ChipRepository.UpdateThenFetch | src/entities/chip/chip.repository.ts:59-61 | an updated chip is fetched as patched, unless the patch flags it |
| ChipService.FindChipById | src/entities/chip/chip.service.ts:12-17 | Ok with the full row iff the key exists, flagged or not, else CHIP_NOTFOUND |
| ChipService.FindAllChips | src/entities/chip/chip.service.ts:24-29 | every row of the table, of every user and flagged or not, each once |
| ChipService.AddChip | src/entities/chip/chip.service.ts:37-42 | one row is inserted under a key no row held |
| ChipService.UpdateChip | src/entities/chip/chip.service.ts:54-59 | UPDATE_FAILED and no change for a missing key; otherwise only that row is patched and the count 1 is returned |
| ChipService.RemoveChip | src/entities/chip/chip.service.ts:67-75 | CHIP_NOTFOUND and no change for a missing key; otherwise the row is deleted from the table and the count 1 returned |
| ChipService.RemoveThenFind | src/entities/chip/chip.service.ts:67-75 | after removeChip the chip is not found, so a second removal fails, and it is not listed; other chips are unaffected |
| ChipService.SoftDeletedChipStillFound | src/entities/chip/chip.service.ts:12-29 | a chip flagged by the repository is no longer fetched there, yet the service still finds and lists it |
| ImageRepository.FetchById | src/entities/image/image.repository.ts:15-17 | a row is returned iff the key exists and is not flagged, projected to name, url, type |
| ImageRepository.Create | src/entities/image/image.repository.ts:28-33 | the row is inserted under the next id of the sequence, which no existing row holds |
| ImageRepository.Update | src/entities/image/image.repository.ts:35-37 | only the row with that key takes the given columns; the count is 1 iff the key exists |
| ImageRepository.Remove | src/entities/image/image.repository.ts:39-41 | only that row gets the flag; the row stays |
| ImageRepository.CreateThenFetch | src/entities/image/image.repository.ts:28-33 | a created image is fetched by its key unless the inserted row is flagged |
| ImageRepository.RemoveHides | src/entities/image/image.repository.ts:39-41 | after remove the image is not fetched, and other images read as before |
| ImageService.FindImage | src/entities/image/image.service.ts:34-39 | Ok with the full row iff the key exists, flagged or not, else the "does not exist" error for that id |
| ImageService.SaveImage | src/entities/image/image.service.ts:42-52 | fails, inserting nothing, when the acting user has no row; otherwise inserts under a fresh key with created_by and updated_by set to that user's role |
| ImageService.MergeIsPatch | src/entities/image/image.service.ts:58-63 | writing the current url and type overlaid with the request and the username equals patching with the request and stamping updated_by |
| ImageService.UpdateImage | src/entities/image/image.service.ts:54-66 | fails first on a missing acting user, then on a missing image, changing nothing; otherwise only that image takes the request's columns and the username as updated_by |
| ImageService.RemoveImage | src/entities/image/image.service.ts:68-73 | fails, changing nothing, for a missing key; otherwise the row is deleted from the table and the count 1 returned |
| ImageService.SaveThenFind | src/entities/image/image.service.ts:42-52 | a saved image is found by its key with the role in both audit columns |
| ImageService.RemoveThenFind | src/entities/image/image.service.ts:68-73 | a removed image is not found, so a second removal fails; other images are unaffected |
| ImageService.SoftDeletedImageStillFound | src/entities/image/image.service.ts:34-39 | an image flagged by the repository is no longer fetched there, yet the service still finds it |
| UserRepository.FetchById | src/entities/user/user.repository.ts:4-6 | the full row iff the key exists and is not flagged |
| UserRepository.Create | src/entities/user/user.repository.ts:8-10 | the row is inserted under the next id of the sequence, which no existing row holds |
| UserRepository.Update | src/entities/user/user.repository.ts:12-14 | only the row with that key takes the given columns; the count is 1 iff the key exists |
| UserRepository.Remove | src/entities/user/user.repository.ts:16-18 | only that row gets the flag; the row stays |
| UserRepository.CreateThenFetch | src/entities/user/user.repository.ts:8-10 | a created user is fetched by its key unless the inserted row is flagged |
| UserRepository.UpdateThenFetch | src/entities/user/user.repository.ts:12-14 | an update that leaves the flag alone is fetched exactly as written |
| UserRepository.RemoveHides | src/entities/user/user.repository.ts:16-18 | after remove the user is not fetched, and other users read as before |
| ImageValidation.SearchFrom | src/entities/image/image.controller.ts:10-11 | scanning start positions from i onwards finds a match iff some word occurs at some later position with a word boundary on each side |
| ImageValidation.Test | src/entities/image/image.controller.ts:10-11 | the regular expression test succeeds iff the string contains one of the words as a whole word, ignoring ASCII case |
| ImageValidation.IsValidType | src/entities/image/image.controller.ts:9-14 | passes iff the type contains folder, user or bookmark as a whole word, ignoring case; otherwise INVALID_TYPE |
| ImageValidation.FolderAccepted | src/entities/image/image.controller.ts:10-11 | "Folder" and "user avatar" pass |
| ImageValidation.FoldersRejected | src/entities/image/image.controller.ts:10-11 | "folders" fails with INVALID_TYPE, for want of a word boundary after the word |
| ImageValidation.LastSegment | src/entities/image/image.controller.ts:24 | the result has no dot, ends the name, and is preceded by a dot unless it is the whole name |
| ImageValidation.LastSegmentUnique | src/entities/image/image.controller.ts:24 | those three properties determine the last segment |
| ImageValidation.AfterLastDot | src/entities/image/image.controller.ts:24 | the extension of a name is whatever follows its last dot, however many dots precede it |
| ImageValidation.ValidateImageType | src/entities/image/image.controller.ts:23-31 | passes iff the text after the last dot contains png, jpg, jpeg or gif as a whole word, ignoring case; otherwise INVALID_IMAGE_TYPE |
| ImageValidation.OnlyLastSegmentMatters | src/entities/image/image.controller.ts:24-27 | whatever precedes the last dot does not affect the verdict |
| ImageValidation.ExtensionUpperCaseAccepted | src/entities/image/image.controller.ts:26-27 | "a.PNG" passes |
| ImageValidation.BareExtensionAccepted | src/entities/image/image.controller.ts:24-27 | a name with no dot, "png", is its own extension and passes |
| ImageValidation.DoubleExtensionRejected | src/entities/image/image.controller.ts:24-29 | "a.png.exe" fails with INVALID_IMAGE_TYPE |
| ImageValidation.ExtensionWordNotWhole | src/entities/image/image.controller.ts:26-27 | "a.png-x" passes: the extension need only contain an allowed word |
| UserSchema.PatternIsStrong | src/entities/user/user.schema.ts:10 | the password regular expression accepts exactly the strings of at least 8 characters, with no line break, holding a lower-case letter, an upper-case letter and a digit |
| UserSchema.PasswordVerdict | src/entities/user/user.schema.ts:28-39 | passes iff the value is a strong password string; otherwise the required, string, short and pattern messages in that order |
| UserSchema.UsernameVerdict | src/entities/user/user.schema.ts:23-27 | passes iff the value is a non-empty string; otherwise the required, string or empty message |
| UserSchema.AcceptsUser | src/entities/user/user.schema.ts:4-20 | an accepted body has a non-empty username, a strong password, a role that is absent, normal or admin, and no unknown key |
| UserSchema.PatchVerdict | src/entities/user/user.schema.ts:22-46 | passes iff username is a non-empty string, password a strong password, the claims well formed and no other key is present; a username failure is reported before a password failure |
| UserSchema.FullBodyPassesPatch | src/entities/user/user.schema.ts:4-46 | a body the full schema accepts, trimmed to the patch keys, passes the patch schema |
| UserSchema.LineBreakRejected | src/entities/user/user.schema.ts:10 | "Abcdefg1" followed by a line feed fails the pattern |
| UserSchema.PasswordExamples | src/__tests__/user.test.ts:189-211 | "short1111" gets the pattern message, "short" the length message, the number 12345678 the string message, and "John1234!" passes |
| UserSchema.PatchExamples | src/__tests__/user.test.ts:248-266 | the body with username "John12" and password "John1234!" passes; with "short1111" it gets the pattern message; without a username it gets the required message |
| UserSchema.RoleDecides | src/entities/user/user.schema.ts:4-20 | once the other fields of a body without a role are accepted, adding a role is accepted exactly when it is absent, normal or admin |
| UserSchema.MinimalBodyAccepted | src/entities/user/user.schema.ts:4-20 | a body of just a non-empty username, an acceptable email and a strong password is accepted: image_id, role and the claims are optional |
| UserSchema.AdminRoleAccepted | src/entities/user/user.schema.ts:13 | the body with username, email, password "John1234!" and role admin is accepted |
| UserSchema.UnknownRoleRefused | src/entities/user/user.schema.ts:13 | any body with role superuser is refused |

## Left out

- Scan order: SQL does not fix the order of an unordered SELECT. Every unordered read here returns rows in ascending key order, and the contracts state membership and projection, not an order the database would promise.
- orderBy collation: the database's ordering of text and timestamp columns is a total order on an abstract sort key. Text is compared by character code, and NULL sorts last in ascending order. The column name and the direction are enums. The query builder lowercases the direction string and reads anything other than `asc` or `desc` as ascending, so `DESC` sorts descending and any unknown string sorts ascending; that mapping from the request's string to a direction is not modelled. An unknown column name, which the database would reject, is not modelled either.
- LIKE wildcards: `%` and `_` inside a title query are matched literally (plain substring), and case folding is ASCII only.
- Insert return shapes: each insert returns the new key from a per-table sequence that starts at 1. The `if (!result)` branches on insert results (ADD_FAILED) are therefore not modelled, and neither is the driver's result object that addChip and saveImage return.
- The `if (!rows)` checks on list results (BOOKMARK_EMPTY, CHIP_NOT_AVAILABLE, FOLDER_EMPTY in findAllFolders and findAllNestedFolders) cannot fire on an array, and the model returns the list.
- The delete-failed branches of removeBookmark, removeChip and removeImage are written out, but they cannot fire: the row was found just before.
- The column name `'folder_id '` with a trailing space in removeFolder is taken as `folder_id`.
- Foreign keys, NOT NULL and column defaults are not modelled. Timestamps (`date`, `click_date`, `created_at`) are integers supplied by the caller. `created_at` is not among the updatable columns.
- Numbers in request bodies are integers: fractional numbers and numeric strings, which Joi converts, are not modelled.
- UserSchema.AcceptsUser: email format is a parameter `isEmail`, because Joi's email validation is library code. The length in `min(8)` counts characters, not UTF-16 code units. Only accept or reject is modelled, not which message Joi reports.
- ImageService.SaveImage and ImageService.UpdateImage: an absent acting user is modelled as an error. In the source, a missing userId makes knex throw and a missing row makes the property read throw.
- RemoveFolder requires acyclic parent links. On a cycle the source recurses without end.
- Controllers, routes, uploads, password hashing and token signing are not part of this model. Concurrency and transactions are not modelled: each statement is atomic and statements run one after another.
