/**
 * The `files` metadata table. Ids come from a serial counter and every
 * insert and update stamps rows from a logical clock standing for the database's NOW(),
 * so a later insert always has a later `createdAt`.
 */
module Repository {
  import opened Types

  /** Every row is stored under its own id. */
  ghost predicate IdsMatch(rows: map<int, FileRecord>) {
    forall id :: id in rows ==> rows[id].id == id
  }

  /** A row with a larger id was created later. */
  ghost predicate CreationOrdered(rows: map<int, FileRecord>) {
    forall a, b :: a in rows && b in rows && a < b ==> rows[a].createdAt < rows[b].createdAt
  }

  /** The table's invariant: ids below the counter, stamps below the clock, creation order. */
  ghost predicate TableInvariant(rows: map<int, FileRecord>, nextId: int, clock: int) {
    && 1 <= nextId && 0 <= clock
    && IdsMatch(rows)
    && (forall id :: id in rows ==> 1 <= id < nextId)
    && (forall id :: id in rows ==> 0 <= rows[id].createdAt <= rows[id].updatedAt < clock)
    && CreationOrdered(rows)
  }

  /** The rows whose ids lie in (lo, hi], largest id first. */
  function Descending(rows: map<int, FileRecord>, hi: int, lo: int): seq<FileRecord>
    decreases hi - lo
  {
    if hi <= lo then []
    else Descending(rows, hi, lo + 1) + (if lo + 1 in rows then [rows[lo + 1]] else [])
  }

  /** Every row whose id lies in (lo, hi] is listed. */
  lemma {:induction false} DescendingComplete(rows: map<int, FileRecord>, hi: int, lo: int)
    ensures forall id :: lo < id <= hi && id in rows ==> rows[id] in Descending(rows, hi, lo)
    decreases hi - lo
  {
    if hi > lo {
      DescendingComplete(rows, hi, lo + 1);
    }
  }

  /** Everything listed is a row whose id lies in (lo, hi]. */
  lemma {:induction false} DescendingSound(rows: map<int, FileRecord>, hi: int, lo: int)
    requires IdsMatch(rows)
    ensures forall x :: x in Descending(rows, hi, lo) ==>
              lo < x.id <= hi && x.id in rows && rows[x.id] == x
    decreases hi - lo
  {
    if hi > lo {
      DescendingSound(rows, hi, lo + 1);
    }
  }

  /** Strictly decreasing `createdAt`: the most recently created row comes first. */
  ghost predicate NewestFirst(s: seq<FileRecord>) {
    forall i, j :: 0 <= i < j < |s| ==> s[i].createdAt > s[j].createdAt
  }

  /** The listing is strictly ordered by `createdAt`, most recent first. */
  lemma {:induction false} DescendingSorted(rows: map<int, FileRecord>, hi: int, lo: int)
    requires IdsMatch(rows) && CreationOrdered(rows)
    ensures NewestFirst(Descending(rows, hi, lo))
    decreases hi - lo
  {
    if hi > lo {
      var prefix := Descending(rows, hi, lo + 1);
      DescendingSorted(rows, hi, lo + 1);
      DescendingSound(rows, hi, lo + 1);
      var s := Descending(rows, hi, lo);
      if lo + 1 in rows {
        assert s == prefix + [rows[lo + 1]];
        forall i, j | 0 <= i < j < |s| ensures s[i].createdAt > s[j].createdAt {
          if j == |prefix| {
            assert s[i] == prefix[i] && s[i] in prefix && s[j] == rows[lo + 1];
            var newer := s[i].id;
            assert rows[newer] == s[i] && lo + 1 < newer;
            assert rows[lo + 1].createdAt < rows[newer].createdAt;
          } else {
            assert s[i] == prefix[i] && s[j] == prefix[j];
          }
        }
      } else {
        assert s == prefix;
      }
    }
  }

  /** The listing is empty exactly when no row has an id in (lo, hi]. */
  lemma DescendingEmpty(rows: map<int, FileRecord>, hi: int, lo: int)
    requires IdsMatch(rows)
    ensures Descending(rows, hi, lo) == [] <==> forall id :: id in rows ==> !(lo < id <= hi)
  {
    DescendingComplete(rows, hi, lo);
    DescendingSound(rows, hi, lo);
    var s := Descending(rows, hi, lo);
    if s != [] {
      assert s[0] in s;
    }
  }

  /**
   * What a full listing of a valid table is: empty exactly when the table is,
   * every row and nothing else, most recently created first.
   */
  lemma ListingFacts(rows: map<int, FileRecord>, nextId: int, clock: int)
    requires TableInvariant(rows, nextId, clock)
    ensures Descending(rows, nextId - 1, 0) == [] <==> rows == map[]
    ensures forall id :: id in rows ==> rows[id] in Descending(rows, nextId - 1, 0)
    ensures forall x :: x in Descending(rows, nextId - 1, 0) ==> x.id in rows && rows[x.id] == x
    ensures NewestFirst(Descending(rows, nextId - 1, 0))
  {
    DescendingComplete(rows, nextId - 1, 0);
    DescendingSound(rows, nextId - 1, 0);
    DescendingSorted(rows, nextId - 1, 0);
    DescendingEmpty(rows, nextId - 1, 0);
    if Descending(rows, nextId - 1, 0) == [] {
      assert forall id :: id !in rows;
      assert rows == map[];
    }
  }

  class FileRepository {
    /** The rows, by id. */
    var rows: map<int, FileRecord>
    /** The id the next insert receives. */
    var nextId: int
    /** The stamp the next insert or update receives. */
    var clock: int

    ghost predicate Valid()
      reads this
    {
      TableInvariant(rows, nextId, clock)
    }

    /** The rows, most recently created first, as a listing returns them. */
    ghost function Newest(): seq<FileRecord>
      reads this
    {
      Descending(rows, nextId - 1, 0)
    }

    /** An empty table. */
    constructor ()
      ensures Valid() && rows == map[] && nextId == 1 && clock == 0
    {
      rows, nextId, clock := map[], 1, 0;
    }

    /**
     * Inserts `f`. On success the stored and returned record is `f` with
     * only its id and both timestamps filled in, under a fresh id.
     */
    method Create(f: FileRecord, fails: bool) returns (r: Result<FileRecord, RepoError>)
      requires Valid()
      modifies this
      ensures Valid()
      ensures fails ==> r == Failure(DbFailed) && unchanged(this)
      ensures !fails ==> r.Success?
      ensures r.Success? ==>
        && r.value == f.(id := old(nextId), createdAt := old(clock), updatedAt := old(clock))
        && r.value.id !in old(rows)
        && rows == old(rows)[r.value.id := r.value]
        && nextId == old(nextId) + 1 && clock == old(clock) + 1
    {
      if fails {
        return Failure(DbFailed);
      }
      var row := f.(id := nextId, createdAt := clock, updatedAt := clock);
      rows := rows[nextId := row];
      nextId := nextId + 1;
      clock := clock + 1;
      r := Success(row);
    }

    /**
     * Lists every row, ordered by `createdAt` descending. A row that cannot
     * be scanned aborts the listing with no partial result; an empty table
     * yields a nil slice.
     */
    method List(queryFails: bool, scanFails: set<int>, iterationFails: bool)
      returns (r: Result<Slice<FileRecord>, RepoError>)
      requires Valid()
      ensures queryFails ==> r == Failure(DbFailed)
      ensures !queryFails && (exists id :: id in rows && id in scanFails) ==> r == Failure(ScanFailed)
      ensures !queryFails && (forall id :: id in rows ==> id !in scanFails) && iterationFails ==>
                r == Failure(IterationFailed)
      ensures r.Success? <==> !queryFails && !iterationFails && forall id :: id in rows ==> id !in scanFails
      ensures r.Success? ==> (r.value.Nil? <==> rows == map[])
      ensures r.Success? ==> r.value.Elems() == Newest()
      ensures r.Success? ==> forall id :: id in rows ==> rows[id] in r.value.Elems()
      ensures r.Success? ==> forall x :: x in r.value.Elems() ==> x.id in rows && rows[x.id] == x
      ensures r.Success? ==> NewestFirst(r.value.Elems())
    {
      if queryFails {
        return Failure(DbFailed);
      }
      var files: Slice<FileRecord> := Nil;
      var lo := nextId - 1;
      while lo > 0
        invariant 0 <= lo <= nextId - 1
        invariant files.Elems() == Descending(rows, nextId - 1, lo)
        invariant files.Nil? <==> files.Elems() == []
        invariant forall id :: lo < id < nextId && id in rows ==> id !in scanFails
      {
        if lo in rows {
          if lo in scanFails {
            return Failure(ScanFailed);
          }
          files := Append(files, rows[lo]);
        }
        lo := lo - 1;
      }
      if iterationFails {
        return Failure(IterationFailed);
      }
      ListingFacts(rows, nextId, clock);
      r := Success(files);
    }

    /** The row with that id, or an error when there is none. */
    method GetByID(id: int, fails: bool) returns (r: Result<FileRecord, RepoError>)
      requires Valid()
      ensures r.Success? <==> !fails && id in rows
      ensures r.Success? ==> r.value == rows[id] && r.value.id == id
      ensures fails ==> r == Failure(DbFailed)
      ensures !fails && id !in rows ==> r == Failure(NoRows)
    {
      if fails {
        return Failure(DbFailed);
      }
      if id !in rows {
        return Failure(NoRows);
      }
      r := Success(rows[id]);
    }

    /**
     * Sets `resume` and refreshes `updatedAt` of row `id`, and returns the
     * whole updated row; no other column and no other row changes.
     */
    method UpdateResume(id: int, resume: string, fails: bool) returns (r: Result<FileRecord, RepoError>)
      requires Valid()
      modifies this
      ensures Valid()
      ensures r.Success? <==> !fails && old(id in rows)
      ensures fails ==> r == Failure(DbFailed)
      ensures !fails && id !in old(rows) ==> r == Failure(NoRows)
      ensures r.Failure? ==> unchanged(this)
      ensures r.Success? ==>
        && r.value == old(rows)[id].(resume := Some(resume), updatedAt := old(clock))
        && rows == old(rows)[id := r.value]
        && nextId == old(nextId)
        && clock == old(clock) + 1
    {
      if fails {
        return Failure(DbFailed);
      }
      if id !in rows {
        return Failure(NoRows);
      }
      var row := rows[id].(resume := Some(resume), updatedAt := clock);
      rows := rows[id := row];
      clock := clock + 1;
      r := Success(row);
    }

    /** Removes row `id`; deleting an absent id reports that zero rows were affected. */
    method Delete(id: int, fails: bool) returns (r: Result<(), RepoError>)
      requires Valid()
      modifies this
      ensures Valid()
      ensures r.Success? <==> !fails && old(id in rows)
      ensures fails ==> r == Failure(DbFailed)
      ensures !fails && id !in old(rows) ==> r == Failure(NotFound)
      ensures r.Failure? ==> unchanged(this)
      ensures r.Success? ==> rows == old(rows) - {id} && nextId == old(nextId) && clock == old(clock)
    {
      if fails {
        return Failure(DbFailed);
      }
      if id !in rows {
        return Failure(NotFound);
      }
      rows := rows - {id};
      r := Success(());
    }
  }

  /**
   * Three inserts into an empty table are listed in reverse order of
   * insertion.
   */
  method ListAfterThreeCreates(f1: FileRecord, f2: FileRecord, f3: FileRecord)
    returns (listed: seq<FileRecord>, r1: FileRecord, r2: FileRecord, r3: FileRecord)
    ensures listed == [r3, r2, r1]
    ensures r1 == f1.(id := 1, createdAt := 0, updatedAt := 0)
    ensures r2 == f2.(id := 2, createdAt := 1, updatedAt := 1)
    ensures r3 == f3.(id := 3, createdAt := 2, updatedAt := 2)
  {
    var repo := new FileRepository();
    var c1 := repo.Create(f1, false);
    var c2 := repo.Create(f2, false);
    var c3 := repo.Create(f3, false);
    r1, r2, r3 := c1.value, c2.value, c3.value;
    var l := repo.List(false, {}, false);
    var rows := repo.rows;
    assert rows == map[1 := r1, 2 := r2, 3 := r3];
    assert Descending(rows, 3, 2) == [r3];
    assert Descending(rows, 3, 1) == [r3, r2];
    assert Descending(rows, 3, 0) == [r3, r2, r1];
    listed := l.value.Elems();
  }
}
