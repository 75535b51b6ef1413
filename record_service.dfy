/**
 * `RecordService` over the record table. The table is the sequence of
 * persisted `Record` entities in id order, and `nextId` is the next value of
 * the AUTO id generator; `persist` + `flush` appends a new entity and assigns
 * its id, `remove` + `flush` drops one, and an update goes through the
 * loaded entity's setters. What each operation does to the table is stated
 * by pure functions over the table's rows (`RecordData` values).
 */
module RecordService {
  import opened Wrappers
  import opened RecordEntity
  import Pagination
  import RecordFilters
  import RecordParameters
  import RecordRepository

  // ---- the table as values ----

  /** Ids strictly increase along the table, so no two rows share one. */
  predicate IdsIncreasing(t: seq<RecordData>)
  {
    forall i, j :: 0 <= i < j < |t| ==> t[i].id < t[j].id
  }

  /** The invariant of the stored table: unique ids below the generator's next value, rows that fit their columns. */
  predicate TableValid(t: seq<RecordData>, nextId: int)
  {
    IdsIncreasing(t) && forall i :: 0 <= i < |t| ==> t[i].id < nextId && FitsColumns(t[i])
  }

  /** The position of the row with id `id`, if there is one. */
  function IndexOf(t: seq<RecordData>, id: int): (r: Option<nat>)
    ensures r.Some? ==> r.value < |t| && t[r.value].id == id
    ensures r.None? <==> forall i :: 0 <= i < |t| ==> t[i].id != id
  {
    if t == [] then None
    else if t[0].id == id then Some(0)
    else
      match IndexOf(t[1..], id)
      case None => None
      case Some(i) => Some(i + 1)
  }

  /** `find($id)`: the row with that id, or `null`. */
  function Find(t: seq<RecordData>, id: int): (r: Option<RecordData>)
  {
    match IndexOf(t, id)
    case None => None
    case Some(i) => Some(t[i])
  }

  /** The four mutable fields an update overwrites. */
  datatype Fields = Fields(title: string, artist: string, price: int, releasedYear: Option<int>)

  function Row(id: int, f: Fields): (r: RecordData)
  {
    RecordData(id, f.title, f.artist, f.price, f.releasedYear)
  }

  /** The table after `updateRecord(id, ...)`: the row with that id, if any, gets the new fields. */
  function Replace(t: seq<RecordData>, id: int, f: Fields): (r: seq<RecordData>)
  {
    match IndexOf(t, id)
    case None => t
    case Some(i) => t[i := Row(id, f)]
  }

  /** The table after `deleteRecord(id)`: the row with that id, if any, is gone. */
  function Remove(t: seq<RecordData>, id: int): (r: seq<RecordData>)
  {
    match IndexOf(t, id)
    case None => t
    case Some(i) => t[..i] + t[i + 1..]
  }

  /** In a table with unique ids, the row at `i` is the one `Find` gives for its id. */
  lemma FindAt(t: seq<RecordData>, i: nat)
    requires IdsIncreasing(t) && i < |t|
    ensures Find(t, t[i].id) == Some(t[i])
  {
  }

  /**
   * Appending a row whose id is above every id in the table: `find` gives
   * it back for its id, and every other id finds what it found before.
   */
  lemma FindAppend(t: seq<RecordData>, d: RecordData, nextId: int)
    requires TableValid(t, nextId) && d.id == nextId && FitsColumns(d)
    ensures TableValid(t + [d], nextId + 1)
    ensures Find(t + [d], d.id) == Some(d)
    ensures forall k :: k != d.id ==> Find(t + [d], k) == Find(t, k)
  {
    var t' := t + [d];
    FindAt(t', |t|);
    forall k | k != d.id ensures Find(t', k) == Find(t, k) {
      match IndexOf(t, k)
      case None =>
      case Some(i) => FindAt(t', i);
    }
  }

  /**
   * An update on an absent id changes nothing; on a present id it keeps the
   * id, gives the new fields, and every other id finds what it found before.
   */
  lemma FindReplace(t: seq<RecordData>, id: int, f: Fields, nextId: int)
    requires TableValid(t, nextId)
    ensures Find(t, id) == None ==> Replace(t, id, f) == t
    ensures Find(Replace(t, id, f), id) == if Find(t, id) == None then None else Some(Row(id, f))
    ensures forall k :: k != id ==> Find(Replace(t, id, f), k) == Find(t, k)
    ensures |Replace(t, id, f)| == |t|
    ensures FitsColumns(Row(id, f)) ==> TableValid(Replace(t, id, f), nextId)
  {
    match IndexOf(t, id)
    case None =>
    case Some(i) =>
      var t' := t[i := Row(id, f)];
      assert IdsIncreasing(t');
      FindAt(t', i);
      forall k | k != id ensures Find(t', k) == Find(t, k) {
        match IndexOf(t, k)
        case None =>
        case Some(j) => FindAt(t', j);
      }
  }

  /** Overwriting the fields of the row at `i`, under the same id, keeps the table valid. */
  lemma ReplaceAt(t: seq<RecordData>, i: nat, f: Fields, nextId: int)
    requires TableValid(t, nextId) && i < |t| && FitsColumns(Row(t[i].id, f))
    ensures TableValid(t[i := Row(t[i].id, f)], nextId)
  {
    var t' := t[i := Row(t[i].id, f)];
    assert forall j :: 0 <= j < |t| ==> t'[j].id == t[j].id;
  }

  /** Dropping the row at `i` keeps the table valid and shifts the rows after it down by one. */
  lemma RemoveAt(t: seq<RecordData>, i: nat, nextId: int)
    requires TableValid(t, nextId) && i < |t|
    ensures var t' := t[..i] + t[i + 1..];
      && |t'| == |t| - 1
      && (forall j :: 0 <= j < i ==> t'[j] == t[j])
      && (forall j :: i <= j < |t'| ==> t'[j] == t[j + 1])
      && TableValid(t', nextId)
  {
    var t' := t[..i] + t[i + 1..];
    assert forall j :: 0 <= j < i ==> t'[j] == t[j];
    assert forall j :: i <= j < |t'| ==> t'[j] == t[j + 1];
  }

  /** After dropping the row at `i`, its id finds nothing. */
  lemma RemoveAtGone(t: seq<RecordData>, i: nat, nextId: int)
    requires TableValid(t, nextId) && i < |t|
    ensures Find(t[..i] + t[i + 1..], t[i].id) == None
  {
    var t' := t[..i] + t[i + 1..];
    RemoveAt(t, i, nextId);
    forall j | 0 <= j < |t'| ensures t'[j].id != t[i].id {
      if j < i { assert t'[j] == t[j]; } else { assert t'[j] == t[j + 1]; }
    }
  }

  /** After dropping the row at `i`, every other id finds what it found before. */
  lemma RemoveAtOthers(t: seq<RecordData>, i: nat, nextId: int, k: int)
    requires TableValid(t, nextId) && i < |t| && k != t[i].id
    ensures Find(t[..i] + t[i + 1..], k) == Find(t, k)
  {
    var t' := t[..i] + t[i + 1..];
    RemoveAt(t, i, nextId);
    match IndexOf(t, k)
    case None =>
      forall j | 0 <= j < |t'| ensures t'[j].id != k {
        if j < i { assert t'[j] == t[j]; } else { assert t'[j] == t[j + 1]; }
      }
    case Some(j) =>
      if j < i { FindAt(t', j); } else { assert t'[j - 1] == t[j]; FindAt(t', j - 1); }
  }

  /**
   * A delete on an absent id changes nothing; on a present id it removes
   * exactly that row: the id finds nothing afterwards, and every other id
   * finds what it found before.
   */
  lemma FindRemove(t: seq<RecordData>, id: int, nextId: int)
    requires TableValid(t, nextId)
    ensures Find(t, id) == None ==> Remove(t, id) == t
    ensures Find(Remove(t, id), id) == None
    ensures forall k :: k != id ==> Find(Remove(t, id), k) == Find(t, k)
    ensures |Remove(t, id)| == if Find(t, id) == None then |t| else |t| - 1
    ensures TableValid(Remove(t, id), nextId)
  {
    match IndexOf(t, id)
    case None =>
    case Some(i) =>
      RemoveAt(t, i, nextId);
      RemoveAtGone(t, i, nextId);
      forall k | k != id ensures Find(t[..i] + t[i + 1..], k) == Find(t, k) {
        RemoveAtOthers(t, i, nextId, k);
      }
  }

  // ---- the parameters a create or an update stores ----

  /** The fields the service reads from well-formed parameters through their getters. */
  function FieldsOf(p: RecordParameters.Params): (f: Fields)
    requires RecordParameters.WellFormed(p)
    ensures FitsColumns(Row(0, f))
    ensures f.releasedYear.Some? ==> 1 <= f.releasedYear.value <= 9999
  {
    RecordParameters.AcceptedYearGetter(p);
    Fields(RecordParameters.GetTitle(p), RecordParameters.GetArtist(p),
           RecordParameters.GetPrice(p), RecordParameters.GetReleasedYear(p))
  }

  // ---- the entities ----

  /** Every entity of `rs` has been given an id. */
  predicate Persisted(rs: seq<Record>)
    reads rs
  {
    forall i :: 0 <= i < |rs| ==> rs[i].id.Some?
  }

  /** The rows the entities of `rs` currently hold. */
  function Snapshot(rs: seq<Record>): (t: seq<RecordData>)
    reads rs
    requires Persisted(rs)
    ensures |t| == |rs| && forall i :: 0 <= i < |rs| ==> t[i] == rs[i].Data()
  {
    if rs == [] then [] else [rs[0].Data()] + Snapshot(rs[1..])
  }

  /** Entities whose rows are, one by one, those of `t` have `t` as their snapshot. */
  lemma SnapshotIs(rs: seq<Record>, t: seq<RecordData>)
    requires Persisted(rs) && |t| == |rs|
    requires forall j :: 0 <= j < |rs| ==> rs[j].Data() == t[j]
    ensures Snapshot(rs) == t
  {
  }

  /** Dropping the entity at `i` drops its row from the snapshot. */
  lemma SnapshotRemoveAt(rs: seq<Record>, i: nat)
    requires Persisted(rs) && i < |rs|
    ensures Persisted(rs[..i] + rs[i + 1..])
    ensures Snapshot(rs[..i] + rs[i + 1..]) == Snapshot(rs)[..i] + Snapshot(rs)[i + 1..]
  {
    var kept := rs[..i] + rs[i + 1..];
    var t := Snapshot(rs);
    forall j | 0 <= j < |kept| ensures kept[j].id.Some? && kept[j].Data() == (t[..i] + t[i + 1..])[j] {
      if j < i { assert kept[j] == rs[j]; } else { assert kept[j] == rs[j + 1]; }
    }
    assert Persisted(kept);
    assert Snapshot(kept) == t[..i] + t[i + 1..];
  }

  class RecordService {
    var rows: seq<Record>
    var nextId: int

    ghost predicate Valid()
      reads this, rows
    {
      Persisted(rows) && TableValid(Snapshot(rows), nextId)
    }

    /** The table's rows. */
    function Contents(): (t: seq<RecordData>)
      reads this, rows
      requires Valid()
    {
      Snapshot(rows)
    }

    /** An empty table whose generator starts at `firstId`. */
    constructor (firstId: int)
      ensures Valid() && Contents() == [] && nextId == firstId
    {
      rows := [];
      nextId := firstId;
    }

    /** `getRecord`: the stored entity with that id, or `null`. */
    method GetRecord(recordId: int) returns (r: Record?)
      requires Valid()
      ensures r == null <==> Find(Contents(), recordId) == None
      ensures r != null ==> r in rows && r.id.Some? && Find(Contents(), recordId) == Some(r.Data())
    {
      var k := IndexOf(Contents(), recordId);
      if k.None? {
        r := null;
      } else {
        r := rows[k.value];
      }
    }

    /** `getRecords`: the repository's list query over the table, unchanged. */
    method GetRecords(pagination: Pagination.Params, filters: RecordFilters.Params) returns (records: seq<RecordData>)
      requires Valid()
      requires Pagination.GetOffset(pagination) >= 0 && Pagination.GetLimit(pagination) >= 0
      ensures records == RecordRepository.FindByCriterion(Contents(), pagination, filters)
    {
      records := RecordRepository.FindByCriterion(Contents(), pagination, filters);
    }

    /**
     * `persist` + `flush` of a new entity: the AUTO strategy gives it the
     * next id and it joins the table after the rows already there.
     */
    method Persist(r: Record)
      requires Valid() && r !in rows && FitsColumns(r.DataWithId(nextId))
      modifies this, r
      ensures Valid() && rows == old(rows) + [r] && nextId == old(nextId) + 1
      ensures r.id == Some(old(nextId)) && r.Data() == old(r.DataWithId(nextId))
      ensures Contents() == old(Contents()) + [r.Data()]
    {
      ghost var before := Contents();
      ghost var d := r.DataWithId(nextId);
      FindAppend(before, d, nextId);
      ghost var previous := rows;
      r.id := Some(nextId);
      rows := rows + [r];
      nextId := nextId + 1;
      assert Persisted(rows) && forall j :: 0 <= j < |rows| ==> rows[j].Data() == (before + [d])[j] by {
        forall j | 0 <= j < |rows| ensures rows[j].id.Some? && rows[j].Data() == (before + [d])[j] {
          if j < |previous| {
            assert rows[j] == previous[j] && previous[j] != r;
          }
        }
      }
      SnapshotIs(rows, before + [d]);
    }

    /**
     * `createRecord`: a new entity with the parameters' fields, persisted
     * with the next generated id; the rows already there are unchanged.
     */
    method CreateRecord(params: RecordParameters.Params) returns (r: Record)
      requires Valid() && RecordParameters.WellFormed(params)
      modifies this
      ensures Valid() && fresh(r) && rows == old(rows) + [r] && nextId == old(nextId) + 1
      ensures r.id == Some(old(nextId)) && r.Data() == Row(old(nextId), FieldsOf(params))
      ensures Contents() == old(Contents()) + [r.Data()]
      ensures Find(Contents(), r.GetId()) == Some(r.Data())
      ensures forall k :: k != r.GetId() ==> Find(Contents(), k) == old(Find(Contents(), k))
    {
      var fields := FieldsOf(params);
      r := new Record(fields.title, fields.artist, fields.price);
      r.SetReleasedYear(fields.releasedYear);
      assert r.DataWithId(nextId) == Row(nextId, fields);
      ghost var before := Contents();
      Persist(r);
      FindAppend(before, r.Data(), old(nextId));
    }

    /**
     * `updateRecord`: `null` and no change for an absent id; otherwise the
     * entity with that id gets the parameters' four fields through its
     * setters, keeps its id, and the other rows are unchanged.
     */
    method UpdateRecord(recordId: int, params: RecordParameters.Params) returns (r: Record?)
      requires Valid() && RecordParameters.WellFormed(params)
      modifies rows
      ensures Valid() && rows == old(rows) && nextId == old(nextId)
      ensures Contents() == Replace(old(Contents()), recordId, FieldsOf(params))
      ensures r == null <==> Find(old(Contents()), recordId) == None
      ensures r != null ==> r in rows && r.id == Some(recordId) && r.Data() == Row(recordId, FieldsOf(params))
    {
      ghost var before := Contents();
      var k := IndexOf(Contents(), recordId);
      if k.None? {
        return null;
      }
      var i := k.value;
      r := rows[i];
      var f := FieldsOf(params);
      ghost var after := before[i := Row(recordId, f)];
      assert FitsColumns(Row(recordId, f)) by { assert FitsColumns(Row(0, f)); }
      ReplaceAt(before, i, f, nextId);
      assert forall j :: 0 <= j < |rows| && j != i ==> rows[j] != r by {
        forall j | 0 <= j < |rows| && j != i ensures rows[j] != r {
          assert before[j].id != before[i].id;
        }
      }
      r.SetTitle(f.title);
      r.SetArtist(f.artist);
      r.SetPrice(f.price);
      r.SetReleasedYear(f.releasedYear);
      assert Persisted(rows) && forall j :: 0 <= j < |rows| ==> rows[j].Data() == after[j] by {
        forall j | 0 <= j < |rows| ensures rows[j].id.Some? && rows[j].Data() == after[j] {
          if j != i {
            assert rows[j] != r;
          }
        }
      }
      SnapshotIs(rows, after);
    }

    /**
     * `deleteRecord`: `false` and no change for an absent id; otherwise the
     * entity with that id is removed, and only it.
     */
    method DeleteRecord(recordId: int) returns (deleted: bool)
      requires Valid()
      modifies this
      ensures Valid() && nextId == old(nextId)
      ensures deleted <==> Find(old(Contents()), recordId) != None
      ensures Contents() == Remove(old(Contents()), recordId)
      ensures Find(Contents(), recordId) == None
    {
      ghost var before := Contents();
      FindRemove(before, recordId, nextId);
      var k := IndexOf(Contents(), recordId);
      if k.None? {
        return false;
      }
      var i := k.value;
      RemoveAt(before, i, nextId);
      ghost var after := before[..i] + before[i + 1..];
      assert after == Remove(before, recordId);
      SnapshotRemoveAt(rows, i);
      rows := rows[..i] + rows[i + 1..];
      deleted := true;
    }
  }
}
