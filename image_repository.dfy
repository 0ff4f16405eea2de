/**
 * The image repository: the statements issued against the images table. fetchById returns
 * `id, name, url, type` of a live row; remove only sets the deletion flag.
 */
module ImageRepository {
  import opened Common
  import opened Tables
  import opened Query

  /** `name, url, type` beside the id. */
  datatype ImageSummary = ImageSummary(name: string, url: string, kind: string)

  function Summary(i: Image): ImageSummary {
    ImageSummary(i.name, i.url, i.kind)
  }

  /** fetchById: the image with that key unless it is absent or soft-deleted. */
  function FetchById(images: map<int, Image>, imageId: int): (r: Option<Keyed<ImageSummary>>)
    ensures r.Some? <==> imageId in images && !images[imageId].isDeleted
    ensures r.Some? ==> r.value == Keyed(imageId, Summary(images[imageId]))
  {
    Lookup(images, imageId, (i: Image) => !i.isDeleted, Summary)
  }

  /** create: inserts the row under the next id of the table's sequence and returns that id. */
  method Create(db: Db, data: Image) returns (imageId: int)
    requires db.Valid()
    modifies db`images, db`nextImageId
    ensures db.Valid()
    ensures imageId == old(db.nextImageId) && imageId !in old(db.images)
    ensures db.images == old(db.images)[imageId := data]
    ensures db.nextImageId == imageId + 1
  {
    imageId := db.nextImageId;
    db.images := db.images[imageId := data];
    db.nextImageId := imageId + 1;
  }

  /** update: writes the given columns into the row with that key; reports how many rows matched. */
  method Update(db: Db, data: ImagePatch, imageId: int) returns (count: nat)
    requires db.Valid()
    modifies db`images
    ensures db.Valid()
    ensures count <= 1 && (count == 1 <==> imageId in old(db.images))
    ensures db.images == UpdateAt(old(db.images), imageId, (i: Image) => PatchImage(i, data))
  {
    count := if imageId in db.images then 1 else 0;
    db.images := UpdateAt(db.images, imageId, (i: Image) => PatchImage(i, data));
  }

  /** remove: sets `isdeleted` on the row with that key and on no other; the row stays. */
  method Remove(db: Db, imageId: int) returns (count: nat)
    requires db.Valid()
    modifies db`images
    ensures db.Valid()
    ensures count <= 1 && (count == 1 <==> imageId in old(db.images))
    ensures db.images == UpdateAt(old(db.images), imageId, (i: Image) => i.(isDeleted := true))
  {
    count := if imageId in db.images then 1 else 0;
    db.images := UpdateAt(db.images, imageId, (i: Image) => i.(isDeleted := true));
  }

  /** A created image is fetched back by its new key, unless the inserted row is itself deleted. */
  lemma CreateThenFetch(images: map<int, Image>, imageId: int, data: Image)
    ensures FetchById(images[imageId := data], imageId) ==
      if data.isDeleted then None else Some(Keyed(imageId, Summary(data)))
  {
  }

  /** After remove the image is no longer fetched, and every other image reads as before. */
  lemma RemoveHides(images: map<int, Image>, imageId: int, other: int)
    requires other != imageId
    ensures FetchById(UpdateAt(images, imageId, (i: Image) => i.(isDeleted := true)), imageId) == None
    ensures FetchById(UpdateAt(images, imageId, (i: Image) => i.(isDeleted := true)), other) == FetchById(images, other)
  {
  }
}
