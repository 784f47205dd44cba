/** POST, PUT and DELETE /api/entries: the entry table as an object whose
    rows the handlers change. Each Prisma call is one atomic step on `rows`;
    ids come from an auto-increment counter and the creation time is given
    by the caller, standing in for the database clock. */
module EntryTable {
  import opened Wrappers
  import opened Search
  import opened Schema
  import opened Listing

  const MissingFields := HttpError(400, "Title, type, and director are required")
  const NotFound := HttpError(404, "Entry not found")

  /** `!title || !type || !director`. */
  predicate MissingRequired(data: EntryData)
  {
    !Truthy(data.title) || !Truthy(data.entryType) || !Truthy(data.director)
  }

  /** The row `prisma.entry.create` stores for a validated body. */
  function NewEntry(id: int, userId: int, data: EntryData, now: int): (e: Entry)
    requires !MissingRequired(data)
    ensures e.id == id && e.userId == userId && e.createdAt == now
    ensures Some(e.title) == data.title && Some(e.entryType) == data.entryType && Some(e.director) == data.director
  {
    Entry(id, data.title.value, data.entryType.value, data.director.value,
          data.budget, data.location, data.duration, data.yearTime, data.posterUrl,
          now, userId)
  }

  /** A field of `prisma.entry.update`'s data: `undefined` leaves the column as it is. */
  function Patch<T>(current: T, v: Option<T>): T
  {
    if v.Some? then v.value else current
  }

  function PatchOptional<T>(current: Option<T>, v: Option<T>): Option<T>
  {
    if v.Some? then v else current
  }

  /** The row after an update: every field the body carries is overwritten,
      the others, the id, the owner and the creation time are kept. */
  function Patched(e: Entry, data: EntryData): (r: Entry)
    ensures r.id == e.id && r.userId == e.userId && r.createdAt == e.createdAt
    ensures data.title.Some? ==> r.title == data.title.value
    ensures data.title.None? ==> r.title == e.title
    ensures data.entryType.Some? ==> r.entryType == data.entryType.value
    ensures data.entryType.None? ==> r.entryType == e.entryType
    ensures data.director.Some? ==> r.director == data.director.value
    ensures data.director.None? ==> r.director == e.director
    ensures data.budget.Some? ==> r.budget == data.budget
    ensures data.budget.None? ==> r.budget == e.budget
    ensures data.location.Some? ==> r.location == data.location
    ensures data.location.None? ==> r.location == e.location
    ensures data.duration.Some? ==> r.duration == data.duration
    ensures data.duration.None? ==> r.duration == e.duration
    ensures data.yearTime.Some? ==> r.yearTime == data.yearTime
    ensures data.yearTime.None? ==> r.yearTime == e.yearTime
    ensures data.posterUrl.Some? ==> r.posterUrl == data.posterUrl
    ensures data.posterUrl.None? ==> r.posterUrl == e.posterUrl
  {
    e.(title := Patch(e.title, data.title),
       entryType := Patch(e.entryType, data.entryType),
       director := Patch(e.director, data.director),
       budget := PatchOptional(e.budget, data.budget),
       location := PatchOptional(e.location, data.location),
       duration := PatchOptional(e.duration, data.duration),
       yearTime := PatchOptional(e.yearTime, data.yearTime),
       posterUrl := PatchOptional(e.posterUrl, data.posterUrl))
  }

  /** `findFirst({ where: { id, userId } })`: the first row with that id
      that the caller owns. */
  function FindOwned(rows: seq<Entry>, id: int, userId: int): (r: Option<nat>)
    ensures r.Some? ==> r.value < |rows| && rows[r.value].id == id && rows[r.value].userId == userId
    ensures r.Some? ==> forall j :: 0 <= j < r.value ==> !(rows[j].id == id && rows[j].userId == userId)
    ensures r.None? ==> forall j :: 0 <= j < |rows| ==> !(rows[j].id == id && rows[j].userId == userId)
  {
    FirstIndex(rows, (e: Entry) => e.id == id && e.userId == userId)
  }

  /** `where: { id }` of `update` and `delete`: the row with that id. */
  function FindById(rows: seq<Entry>, id: int): (r: Option<nat>)
    ensures r.Some? ==> r.value < |rows| && rows[r.value].id == id
    ensures r.None? ==> forall j :: 0 <= j < |rows| ==> rows[j].id != id
  {
    FirstIndex(rows, (e: Entry) => e.id == id)
  }

  /** The primary key constraint. */
  ghost predicate UniqueIds(rows: seq<Entry>)
  {
    forall i, j :: 0 <= i < |rows| && 0 <= j < |rows| && rows[i].id == rows[j].id ==> i == j
  }

  /** Without the row at `i`, in table order. */
  function RemoveAt(rows: seq<Entry>, i: nat): (r: seq<Entry>)
    requires i < |rows|
    ensures |r| == |rows| - 1
    ensures forall j :: 0 <= j < i ==> r[j] == rows[j]
    ensures forall j :: i <= j < |r| ==> r[j] == rows[j + 1]
  {
    rows[..i] + rows[i + 1..]
  }

  class EntryTable {
    var rows: seq<Entry>
    /** The next value of the auto-increment id column. */
    var nextId: int

    ghost predicate Valid()
      reads this
    {
      && nextId >= 1
      && UniqueIds(rows)
      && forall i :: 0 <= i < |rows| ==> 1 <= rows[i].id < nextId
    }

    constructor ()
      ensures Valid() && rows == [] && nextId == 1
    {
      rows := [];
      nextId := 1;
    }

    /** POST /api/entries. */
    method Create(userId: int, data: EntryData, now: int) returns (r: Result<Entry, HttpError>)
      requires Valid()
      modifies this
      ensures Valid()
      ensures MissingRequired(data) ==> r == Err(MissingFields) && rows == old(rows) && nextId == old(nextId)
      ensures !MissingRequired(data) ==>
                && r == Ok(NewEntry(old(nextId), userId, data, now))
                && rows == old(rows) + [r.value]
                && nextId == old(nextId) + 1
      ensures r.Ok? ==> FindOwned(rows, r.value.id, userId) == Some(|old(rows)|)
    {
      if !Truthy(data.title) || !Truthy(data.entryType) || !Truthy(data.director) {
        return Err(MissingFields);
      }
      var e := NewEntry(nextId, userId, data, now);
      CreatedRowIsFound(rows, e, nextId);
      rows := rows + [e];
      nextId := nextId + 1;
      r := Ok(e);
    }

    /** PUT /api/entries/:id. */
    method Update(userId: int, id: int, data: EntryData) returns (r: Result<Entry, HttpError>)
      requires Valid()
      modifies this`rows
      ensures Valid()
      ensures FindOwned(old(rows), id, userId).None? ==> r == Err(NotFound) && rows == old(rows)
      ensures FindOwned(old(rows), id, userId).Some? ==>
                var i := FindOwned(old(rows), id, userId).value;
                && r == Ok(Patched(old(rows)[i], data))
                && rows == old(rows)[i := r.value]
    {
      var existing := FindOwned(rows, id, userId);
      if existing.None? {
        return Err(NotFound);
      }
      var target := FindById(rows, id);
      assert target == existing;
      var i := target.value;
      var updated := Patched(rows[i], data);
      rows := rows[i := updated];
      r := Ok(updated);
    }

    /** DELETE /api/entries/:id. */
    method Delete(userId: int, id: int) returns (r: Result<(), HttpError>)
      requires Valid()
      modifies this`rows
      ensures Valid()
      ensures FindOwned(old(rows), id, userId).None? ==> r == Err(NotFound) && rows == old(rows)
      ensures FindOwned(old(rows), id, userId).Some? ==>
                r.Ok? && rows == RemoveAt(old(rows), FindOwned(old(rows), id, userId).value)
      ensures FindOwned(rows, id, userId).None?
    {
      var existing := FindOwned(rows, id, userId);
      if existing.None? {
        return Err(NotFound);
      }
      var target := FindById(rows, id);
      assert target == existing;
      var i := target.value;
      IdGoneAfterRemove(rows, i);
      rows := RemoveAt(rows, i);
      r := Ok(());
    }
  }

  lemma CreatedRowIsFound(rows: seq<Entry>, e: Entry, nextId: int)
    requires forall i :: 0 <= i < |rows| ==> rows[i].id < nextId
    requires e.id == nextId
    ensures FindOwned(rows + [e], e.id, e.userId) == Some(|rows|)
  {
    var r := FindOwned(rows + [e], e.id, e.userId);
    assert (rows + [e])[|rows|] == e;
  }

  lemma IdGoneAfterRemove(rows: seq<Entry>, i: nat)
    requires UniqueIds(rows) && i < |rows|
    ensures FindById(RemoveAt(rows, i), rows[i].id).None?
  {
  }

  /** An entry owned by someone else is invisible to the caller: looking it
      up as the caller finds nothing, so update and delete answer 404. */
  lemma OtherUsersRowIsNotFound(rows: seq<Entry>, i: nat, caller: int)
    requires UniqueIds(rows) && i < |rows| && rows[i].userId != caller
    ensures FindOwned(rows, rows[i].id, caller).None?
  {
  }

  lemma WhereSplitAt(rows: seq<Entry>, i: nat, userId: int, search: string)
    requires i < |rows|
    ensures Where(rows, userId, search)
         == Where(rows[..i], userId, search) + Where([rows[i]], userId, search) + Where(rows[i + 1..], userId, search)
  {
    assert rows == rows[..i] + ([rows[i]] + rows[i + 1..]);
    WhereAppend(rows[..i], [rows[i]] + rows[i + 1..], userId, search);
    WhereAppend([rows[i]], rows[i + 1..], userId, search);
  }

  /** Creating an entry for one user leaves every other user's listing as it was. */
  lemma CreateKeepsOtherListings(rows: seq<Entry>, e: Entry, other: int, q: ListQuery)
    requires e.userId != other && q.page >= 1 && q.limit >= 1
    ensures ListEntries(rows + [e], other, q) == ListEntries(rows, other, q)
  {
    WhereAppend(rows, [e], other, q.search);
    assert Where([e], other, q.search) == [];
    assert rows + [e] != [] && Where(rows + [e], other, q.search) == Where(rows, other, q.search);
  }

  /** Updating one user's entry leaves every other user's listing as it was. */
  lemma UpdateKeepsOtherListings(rows: seq<Entry>, i: nat, data: EntryData, other: int, q: ListQuery)
    requires i < |rows| && rows[i].userId != other && q.page >= 1 && q.limit >= 1
    ensures ListEntries(rows[i := Patched(rows[i], data)], other, q) == ListEntries(rows, other, q)
  {
    var after := rows[i := Patched(rows[i], data)];
    WhereSplitAt(rows, i, other, q.search);
    WhereSplitAt(after, i, other, q.search);
    assert after[..i] == rows[..i] && after[i + 1..] == rows[i + 1..];
  }

  /** Deleting one user's entry leaves every other user's listing as it was. */
  lemma DeleteKeepsOtherListings(rows: seq<Entry>, i: nat, other: int, q: ListQuery)
    requires i < |rows| && rows[i].userId != other && q.page >= 1 && q.limit >= 1
    ensures ListEntries(RemoveAt(rows, i), other, q) == ListEntries(rows, other, q)
  {
    var after := RemoveAt(rows, i);
    assert Where(after, other, q.search) == Where(rows, other, q.search) by {
      WhereSplitAt(rows, i, other, q.search);
      assert Where([rows[i]], other, q.search) == [];
      assert after == rows[..i] + rows[i + 1..];
      WhereAppend(rows[..i], rows[i + 1..], other, q.search);
    }
  }
}
