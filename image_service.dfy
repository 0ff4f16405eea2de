/**
 * The image service. It looks rows up by key without regard to `isdeleted`, stamps the acting
 * user's role (on save) or username (on update) into the audit columns, and deletes rows outright.
 * The acting user arrives as a key into the users table.
 */
module ImageService {
  import opened Common
  import opened Tables
  import opened Query
  import ImageRepository

  /**
   * "Image with id ... doesnot exist", and the failure of reading a column of a user row that is
   * not there (the lookup of the acting user found nothing).
   */
  datatype ImageError = ImageNotFound(imageId: int) | UserMissing(userId: int) | DeleteFailed

  /** findImage: the row with that key, deleted or not, with all its columns. */
  function FindImage(images: map<int, Image>, imageId: int): (r: Result<Keyed<Image>, ImageError>)
    ensures r.Ok? <==> imageId in images
    ensures r.Ok? ==> r.value == Keyed(imageId, images[imageId])
    ensures r.Err? ==> r.error == ImageNotFound(imageId)
  {
    match Lookup(images, imageId, (i: Image) => true, (i: Image) => i)
    case Some(e) => Ok(e)
    case None => Err(ImageNotFound(imageId))
  }

  /**
   * saveImage: when the acting user has a row (deleted or not), inserts the image under a fresh
   * key with `created_by` and `updated_by` both set to that user's role and returns the key;
   * otherwise nothing is inserted.
   */
  method SaveImage(db: Db, data: Image, userId: int) returns (r: Result<int, ImageError>)
    requires db.Valid()
    modifies db`images, db`nextImageId
    ensures db.Valid()
    ensures userId !in db.users ==> r == Err(UserMissing(userId)) && db.images == old(db.images)
    ensures userId in db.users ==>
      && r == Ok(old(db.nextImageId))
      && old(db.nextImageId) !in old(db.images)
      && db.images == old(db.images)[r.value := data.(createdBy := db.users[userId].role, updatedBy := db.users[userId].role)]
  {
    if userId !in db.users {
      return Err(UserMissing(userId));
    }
    var role := db.users[userId].role;
    var imageId := ImageRepository.Create(db, data.(createdBy := role, updatedBy := role));
    r := Ok(imageId);
  }

  /** `select('url', 'type')`: the two columns updateImage reads back before it writes. */
  datatype UrlAndType = UrlAndType(url: string, kind: string)

  /**
   * `{ ...current, ...data, updated_by: username }`: the payload updateImage writes. A column the
   * request leaves out keeps the url or type just read; updated_by is always the username.
   */
  function Merge(current: UrlAndType, data: ImagePatch, username: string): ImagePatch {
    ImagePatch(data.name, Some(data.url.GetOr(current.url)), Some(data.kind.GetOr(current.kind)),
               data.isDeleted, data.createdBy, Some(username))
  }

  /**
   * Writing the merged payload into the row the url and type were read from is writing the
   * request alone and stamping the username: the read-back changes nothing.
   */
  lemma MergeIsPatch(row: Image, data: ImagePatch, username: string)
    ensures PatchImage(row, Merge(UrlAndType(row.url, row.kind), data, username))
         == PatchImage(row, data).(updatedBy := username)
  {
  }

  /**
   * updateImage: fails when the acting user has no row, and then, when the image has no row
   * (deleted rows have theirs); in either case nothing changes. Otherwise the image takes the
   * request's columns and the username as `updated_by`, and the count 1 is returned.
   */
  method UpdateImage(db: Db, data: ImagePatch, imageId: int, userId: int) returns (r: Result<nat, ImageError>)
    requires db.Valid()
    modifies db`images
    ensures db.Valid()
    ensures userId !in db.users ==> r == Err(UserMissing(userId)) && db.images == old(db.images)
    ensures userId in db.users && imageId !in old(db.images) ==> r == Err(ImageNotFound(imageId)) && db.images == old(db.images)
    ensures userId in db.users && imageId in old(db.images) ==>
      && r == Ok(1)
      && db.images == old(db.images)[imageId := PatchImage(old(db.images)[imageId], data).(updatedBy := db.users[userId].username)]
  {
    if userId !in db.users {
      return Err(UserMissing(userId));
    }
    var username := db.users[userId].username;
    if imageId !in db.images {
      return Err(ImageNotFound(imageId));
    }
    var current := UrlAndType(db.images[imageId].url, db.images[imageId].kind);
    MergeIsPatch(db.images[imageId], data, username);
    // the same `update(data).where('id', id)` statement as the repository's update
    var count := ImageRepository.Update(db, Merge(current, data, username), imageId);
    r := Ok(count);
  }

  /**
   * removeImage: "does not exist", and nothing changes, when no row has the key; otherwise the
   * row is deleted from the table (not flagged) and the count 1 is returned.
   */
  method RemoveImage(db: Db, imageId: int) returns (r: Result<nat, ImageError>)
    requires db.Valid()
    modifies db`images
    ensures db.Valid()
    ensures imageId !in old(db.images) ==> r == Err(ImageNotFound(imageId)) && db.images == old(db.images)
    ensures imageId in old(db.images) ==> r == Ok(1) && db.images == old(db.images) - {imageId}
  {
    var image := FindImage(db.images, imageId);
    if image.Err? {
      return Err(image.error);
    }
    var count := if imageId in db.images then 1 else 0;
    db.images := db.images - {imageId};
    if count == 0 {
      return Err(DeleteFailed);
    }
    r := Ok(count);
  }

  /** A saved image is found by its new key, with the role in both audit columns. */
  lemma SaveThenFind(images: map<int, Image>, imageId: int, data: Image, role: string)
    ensures FindImage(images[imageId := data.(createdBy := role, updatedBy := role)], imageId)
         == Ok(Keyed(imageId, data.(createdBy := role, updatedBy := role)))
  {
  }

  /**
   * After removeImage the image is gone for good: finding it fails, so removing it again fails
   * too; every other image is found as before.
   */
  lemma RemoveThenFind(images: map<int, Image>, imageId: int, other: int)
    requires other != imageId
    ensures FindImage(images - {imageId}, imageId) == Err(ImageNotFound(imageId))
    ensures FindImage(images - {imageId}, other) == FindImage(images, other)
  {
  }

  /**
   * An image the repository has soft-deleted is no longer fetched by the repository, yet the
   * service still finds it, with its flag set.
   */
  lemma SoftDeletedImageStillFound(images: map<int, Image>, imageId: int)
    requires imageId in images
    ensures var after := UpdateAt(images, imageId, (i: Image) => i.(isDeleted := true));
      && ImageRepository.FetchById(after, imageId) == None
      && FindImage(after, imageId) == Ok(Keyed(imageId, images[imageId].(isDeleted := true)))
  {
  }
}
