/**
 * The chip repository: the statements issued against the chips table. Reads return the columns
 * `id, name, user_id, folder_id` of live rows; remove only sets the deletion flag.
 */
module ChipRepository {
  import opened Common
  import opened Tables
  import opened Query

  /** `name, user_id, folder_id` beside the id. */
  datatype ChipSummary = ChipSummary(name: string, userId: int, folderId: int)

  function Summary(c: Chip): ChipSummary {
    ChipSummary(c.name, c.userId, c.folderId)
  }

  /** fetchById: the chip with that key unless it is absent or soft-deleted. */
  function FetchById(chips: map<int, Chip>, chipId: int): (r: Option<Keyed<ChipSummary>>)
    ensures r.Some? <==> chipId in chips && !chips[chipId].isDeleted
    ensures r.Some? ==> r.value == Keyed(chipId, Summary(chips[chipId]))
  {
    Lookup(chips, chipId, (c: Chip) => !c.isDeleted, Summary)
  }

  /** fetchAll: the user's live chips, each once, in key order. */
  function FetchAll(chips: map<int, Chip>, userId: int): (r: seq<Keyed<ChipSummary>>)
    ensures KeysOf(r) == set k | k in chips && chips[k].userId == userId && !chips[k].isDeleted
    ensures forall e :: e in r ==> e.id in chips && e.row == Summary(chips[e.id])
    ensures Ascending(r)
  {
    Select(chips, (c: Chip) => c.userId == userId && !c.isDeleted, Summary)
  }

  /** create: inserts the row under the next id of the table's sequence and returns that id. */
  method Create(db: Db, data: Chip) returns (chipId: int)
    requires db.Valid()
    modifies db`chips, db`nextChipId
    ensures db.Valid()
    ensures chipId == old(db.nextChipId) && chipId !in old(db.chips)
    ensures db.chips == old(db.chips)[chipId := data]
    ensures db.nextChipId == chipId + 1
  {
    chipId := db.nextChipId;
    db.chips := db.chips[chipId := data];
    db.nextChipId := chipId + 1;
  }

  /** update: writes the given columns into the row with that key; reports how many rows matched. */
  method Update(db: Db, data: ChipPatch, chipId: int) returns (count: nat)
    requires db.Valid()
    modifies db`chips
    ensures db.Valid()
    ensures count <= 1 && (count == 1 <==> chipId in old(db.chips))
    ensures db.chips == UpdateAt(old(db.chips), chipId, (c: Chip) => PatchChip(c, data))
  {
    count := if chipId in db.chips then 1 else 0;
    db.chips := UpdateAt(db.chips, chipId, (c: Chip) => PatchChip(c, data));
  }

  /** remove: sets `isdeleted` on the row with that key and on no other; the row stays. */
  method Remove(db: Db, chipId: int) returns (count: nat)
    requires db.Valid()
    modifies db`chips
    ensures db.Valid()
    ensures count <= 1 && (count == 1 <==> chipId in old(db.chips))
    ensures db.chips == UpdateAt(old(db.chips), chipId, (c: Chip) => c.(isDeleted := true))
  {
    count := if chipId in db.chips then 1 else 0;
    db.chips := UpdateAt(db.chips, chipId, (c: Chip) => c.(isDeleted := true));
  }

  /**
   * After remove the chip is neither fetched by its key nor listed for its owner, and every
   * other chip reads as before.
   */
  lemma RemoveHides(chips: map<int, Chip>, chipId: int, other: int, userId: int)
    requires other != chipId
    ensures var after := UpdateAt(chips, chipId, (c: Chip) => c.(isDeleted := true));
      && FetchById(after, chipId) == None
      && FetchById(after, other) == FetchById(chips, other)
      && KeysOf(FetchAll(after, userId)) == KeysOf(FetchAll(chips, userId)) - {chipId}
  {
    var after := UpdateAt(chips, chipId, (c: Chip) => c.(isDeleted := true));
    var a, b := FetchAll(after, userId), FetchAll(chips, userId);
    forall k ensures k in KeysOf(a) <==> k in KeysOf(b) && k != chipId {
      if k != chipId && k in chips {
        assert after[k] == chips[k];
      }
    }
  }

  /** Updating a chip and fetching it returns the patched row, unless the patch deletes it. */
  lemma UpdateThenFetch(chips: map<int, Chip>, chipId: int, data: ChipPatch)
    requires chipId in chips
    ensures var c := PatchChip(chips[chipId], data);
      FetchById(UpdateAt(chips, chipId, (c: Chip) => PatchChip(c, data)), chipId) ==
        if c.isDeleted then None else Some(Keyed(chipId, Summary(c)))
  {
  }
}
