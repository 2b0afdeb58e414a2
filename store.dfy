/**
 * The `liveries` table as a value (DB/scraper1.py, lines 11-20 and 69-78): rows in
 * insertion order, each with the id SQLite's AUTOINCREMENT gave it, and the id the
 * next insert will receive. The duplicate check runs before every insert, so the
 * table keeps registrations and image URLs pairwise distinct.
 */
module Store {

  import opened Listing

  datatype Row = Row(id: nat, record: Record)

  datatype Table = Table(rows: seq<Row>, nextId: nat)

  /** A table just created: no rows, and AUTOINCREMENT starts at 1. */
  const EMPTY := Table([], 1)

  /** The duplicate test of line 70 for one row: the same registration or the same image URL. */
  predicate Matches(row: Row, registration: string, imageUrl: string)
  {
    row.record.registration == registration || row.record.imageUrl == imageUrl
  }

  /** The duplicate query of line 70 returns at least one row. */
  predicate Conflicts(rows: seq<Row>, c: Record)
  {
    exists i :: 0 <= i < |rows| && Matches(rows[i], c.registration, c.imageUrl)
  }

  /** The table invariant: increasing ids below nextId, distinct registrations, distinct image URLs. */
  ghost predicate Valid(t: Table)
  {
    1 <= t.nextId
    && (forall i :: 0 <= i < |t.rows| ==> 1 <= t.rows[i].id < t.nextId)
    && (forall i, j :: 0 <= i < j < |t.rows| ==>
          && t.rows[i].id < t.rows[j].id
          && t.rows[i].record.registration != t.rows[j].record.registration
          && t.rows[i].record.imageUrl != t.rows[j].record.imageUrl)
  }

  /** Lines 70-78: insert the candidate unless some row shares its registration or image URL. */
  function Insert(t: Table, c: Record): (t': Table)
  {
    if Conflicts(t.rows, c) then t
    else Table(t.rows + [Row(t.nextId, c)], t.nextId + 1)
  }

  /** Line 44: the candidates of one page, inserted one after the other. */
  function InsertAll(t: Table, cs: seq<Record>): (t': Table)
    decreases |cs|
  {
    if cs == [] then t
    else Insert(InsertAll(t, cs[..|cs| - 1]), cs[|cs| - 1])
  }

  lemma InsertAllSnoc(t: Table, cs: seq<Record>, c: Record)
    ensures InsertAll(t, cs + [c]) == Insert(InsertAll(t, cs), c)
  {
    assert (cs + [c])[..|cs|] == cs;
  }

  /** Every insert keeps the table invariant. */
  lemma InsertValid(t: Table, c: Record)
    requires Valid(t)
    ensures Valid(Insert(t, c))
  {
    if !Conflicts(t.rows, c) {
      var rows := Insert(t, c).rows;
      forall i, j | 0 <= i < j < |rows|
        ensures rows[i].record.registration != rows[j].record.registration
        ensures rows[i].record.imageUrl != rows[j].record.imageUrl
      {
        if j == |t.rows| {
          assert !Matches(t.rows[i], c.registration, c.imageUrl);
        }
      }
    }
  }

  /** Every sequence of inserts keeps the table invariant. */
  lemma {:induction false} InsertAllValid(t: Table, cs: seq<Record>)
    requires Valid(t)
    ensures Valid(InsertAll(t, cs))
    decreases |cs|
  {
    if cs != [] {
      InsertAllValid(t, cs[..|cs| - 1]);
      InsertValid(InsertAll(t, cs[..|cs| - 1]), cs[|cs| - 1]);
    }
  }

  /** Nothing is ever updated or deleted: old rows stay, and one id is used per new row. */
  lemma {:induction false} InsertAllExtends(t: Table, cs: seq<Record>)
    ensures |t.rows| <= |InsertAll(t, cs).rows| <= |t.rows| + |cs|
    ensures InsertAll(t, cs).rows[..|t.rows|] == t.rows
    ensures InsertAll(t, cs).nextId - t.nextId == |InsertAll(t, cs).rows| - |t.rows|
    decreases |cs|
  {
    if cs != [] {
      InsertAllExtends(t, cs[..|cs| - 1]);
      var mid := InsertAll(t, cs[..|cs| - 1]);
      if !Conflicts(mid.rows, cs[|cs| - 1]) {
        assert (mid.rows + [Row(mid.nextId, cs[|cs| - 1])])[..|t.rows|] == mid.rows[..|t.rows|];
      }
    }
  }

  /** Inserting the candidates of `a` and then those of `b` is inserting those of `a + b`. */
  lemma {:induction false} InsertAllAppend(t: Table, a: seq<Record>, b: seq<Record>)
    ensures InsertAll(t, a + b) == InsertAll(InsertAll(t, a), b)
    decreases |b|
  {
    if b == [] {
      assert a + b == a;
    } else {
      assert (a + b)[..|a + b| - 1] == a + b[..|b| - 1];
      assert (a + b)[|a + b| - 1] == b[|b| - 1];
      InsertAllAppend(t, a, b[..|b| - 1]);
    }
  }

  lemma ConflictsKept(rows: seq<Row>, more: seq<Row>, c: Record)
    requires Conflicts(rows, c)
    ensures Conflicts(rows + more, c)
  {
    var i :| 0 <= i < |rows| && Matches(rows[i], c.registration, c.imageUrl);
    assert (rows + more)[i] == rows[i];
  }

  /** After the inserts, every candidate has a row sharing its registration or image URL. */
  lemma {:induction false} InsertAllCovers(t: Table, cs: seq<Record>)
    ensures forall c :: c in cs ==> Conflicts(InsertAll(t, cs).rows, c)
    decreases |cs|
  {
    if cs != [] {
      var init, last := cs[..|cs| - 1], cs[|cs| - 1];
      var mid := InsertAll(t, init);
      InsertAllCovers(t, init);
      forall c | c in cs
        ensures Conflicts(InsertAll(t, cs).rows, c)
      {
        if !Conflicts(mid.rows, last) {
          var more := [Row(mid.nextId, last)];
          if c in init {
            ConflictsKept(mid.rows, more, c);
          } else {
            assert c == last;
            assert Matches((mid.rows + more)[|mid.rows|], c.registration, c.imageUrl);
          }
        } else if c !in init {
          assert c == last;
        }
      }
    }
  }

  /** Candidates that all conflict with the table already leave it unchanged. */
  lemma {:induction false} InsertAllNoop(t: Table, cs: seq<Record>)
    requires forall c :: c in cs ==> Conflicts(t.rows, c)
    ensures InsertAll(t, cs) == t
    decreases |cs|
  {
    if cs != [] {
      assert forall c :: c in cs[..|cs| - 1] ==> c in cs;
      InsertAllNoop(t, cs[..|cs| - 1]);
      assert Conflicts(t.rows, cs[|cs| - 1]);
    }
  }

  /** Replaying the same candidates against the resulting table appends nothing. */
  lemma InsertAllIdempotent(t: Table, cs: seq<Record>)
    ensures InsertAll(InsertAll(t, cs), cs) == InsertAll(t, cs)
  {
    InsertAllCovers(t, cs);
    InsertAllNoop(InsertAll(t, cs), cs);
  }

  /** Distinct registrations mean at most one row can carry the registration "Unknown". */
  lemma AtMostOneUnknown(t: Table, i: nat, j: nat)
    requires Valid(t)
    requires i < |t.rows| && j < |t.rows|
    requires t.rows[i].record.registration == UNKNOWN && t.rows[j].record.registration == UNKNOWN
    ensures i == j
  {
  }
}
