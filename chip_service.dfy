/**
 * The chip service. Unlike the repository it does not look at `isdeleted`: it finds and lists
 * soft-deleted chips too, and its removal deletes the row outright.
 */
module ChipService {
  import opened Common
  import opened Tables
  import opened Query
  import ChipRepository

  /** CHIP_NOTFOUND, UPDATE_FAILED and the failure of the delete statement. */
  datatype ChipError = ChipNotFound | UpdateFailed | DeleteFailed

  /** findChipById: the row with that key, deleted or not, with all its columns; else CHIP_NOTFOUND. */
  function FindChipById(chips: map<int, Chip>, chipId: int): (r: Result<Keyed<Chip>, ChipError>)
    ensures r.Ok? <==> chipId in chips
    ensures r.Ok? ==> r.value == Keyed(chipId, chips[chipId])
    ensures r.Err? ==> r.error == ChipNotFound
  {
    match Lookup(chips, chipId, (c: Chip) => true, (c: Chip) => c)
    case Some(e) => Ok(e)
    case None => Err(ChipNotFound)
  }

  /** findAllChips: every row of the table, of every user and deleted or not, each once. */
  function FindAllChips(chips: map<int, Chip>): (r: seq<Keyed<Chip>>)
    ensures KeysOf(r) == chips.Keys
    ensures forall e :: e in r ==> e.id in chips && e.row == chips[e.id]
    ensures |r| == |chips|
    ensures Ascending(r)
  {
    var r := Select(chips, (c: Chip) => true, (c: Chip) => c);
    AscendingCount(r);
    assert KeysOf(r) == chips.Keys;
    r
  }

  /** addChip: inserts exactly one row under a fresh key and returns that key. */
  method AddChip(db: Db, data: Chip) returns (chipId: int)
    requires db.Valid()
    modifies db`chips, db`nextChipId
    ensures db.Valid()
    ensures chipId !in old(db.chips)
    ensures db.chips == old(db.chips)[chipId := data]
  {
    chipId := ChipRepository.Create(db, data);
  }

  /**
   * updateChip: UPDATE_FAILED, and nothing changes, when no row has the key (deleted rows have
   * theirs); otherwise only that row takes the given columns and the count 1 is returned.
   */
  method UpdateChip(db: Db, data: ChipPatch, chipId: int) returns (r: Result<nat, ChipError>)
    requires db.Valid()
    modifies db`chips
    ensures db.Valid()
    ensures chipId !in old(db.chips) ==> r == Err(UpdateFailed) && db.chips == old(db.chips)
    ensures chipId in old(db.chips) ==> r == Ok(1) && db.chips == old(db.chips)[chipId := PatchChip(old(db.chips)[chipId], data)]
  {
    // the same `update(data).where('id', id)` statement as the repository's update
    var count := ChipRepository.Update(db, data, chipId);
    if count == 0 {
      r := Err(UpdateFailed);
    } else {
      r := Ok(count);
    }
  }

  /**
   * removeChip: CHIP_NOTFOUND, and nothing changes, when no row has the key; otherwise the row
   * is deleted from the table (not flagged) and the count 1 is returned.
   */
  method RemoveChip(db: Db, chipId: int) returns (r: Result<nat, ChipError>)
    requires db.Valid()
    modifies db`chips
    ensures db.Valid()
    ensures chipId !in old(db.chips) ==> r == Err(ChipNotFound) && db.chips == old(db.chips)
    ensures chipId in old(db.chips) ==> r == Ok(1) && db.chips == old(db.chips) - {chipId}
  {
    var current := FindChipById(db.chips, chipId);
    if current.Err? {
      return Err(current.error);
    }
    var count := if chipId in db.chips then 1 else 0;
    db.chips := db.chips - {chipId};
    if count == 0 {
      return Err(DeleteFailed);
    }
    r := Ok(count);
  }

  /**
   * After removeChip the chip is gone for good: finding it fails, so removing it again fails too,
   * and it is no longer listed; every other chip is found as before.
   */
  lemma RemoveThenFind(chips: map<int, Chip>, chipId: int, other: int)
    requires other != chipId
    ensures FindChipById(chips - {chipId}, chipId) == Err(ChipNotFound)
    ensures FindChipById(chips - {chipId}, other) == FindChipById(chips, other)
    ensures KeysOf(FindAllChips(chips - {chipId})) == KeysOf(FindAllChips(chips)) - {chipId}
  {
  }

  /**
   * A chip the repository has soft-deleted is no longer fetched by the repository, yet the service
   * still finds it, with its flag set, and still lists it.
   */
  lemma SoftDeletedChipStillFound(chips: map<int, Chip>, chipId: int)
    requires chipId in chips
    ensures var after := UpdateAt(chips, chipId, (c: Chip) => c.(isDeleted := true));
      && ChipRepository.FetchById(after, chipId) == None
      && FindChipById(after, chipId) == Ok(Keyed(chipId, chips[chipId].(isDeleted := true)))
      && chipId in KeysOf(FindAllChips(after))
  {
  }
}
