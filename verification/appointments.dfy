/** The `appointments` table: insert with a fresh AUTOINCREMENT id, lookup and
    delete by the (name, phone) pair, overwrite of the seven columns by id. */
module Appointments {
  import opened Results

  /** The seven columns the application writes; the payment method is not one. */
  datatype Fields = Fields(
    name: string, phone: string, email: string, service: string,
    stylist: string, date: string, time: string)

  /** One row; `id` is the INTEGER PRIMARY KEY AUTOINCREMENT column. */
  datatype Appointment = Appointment(id: nat, fields: Fields)

  /** The (name, phone) pair the admin screens use in place of the id. */
  datatype Key = Key(name: string, phone: string)

  function KeyOf(a: Appointment): Key
  {
    Key(a.fields.name, a.fields.phone)
  }

  /** The table: its rows in rowid (insertion) order and the largest id it has
      ever handed out, which AUTOINCREMENT never hands out again. */
  datatype Table = Table(rows: seq<Appointment>, lastId: nat)

  /** A freshly created table. */
  const Empty := Table([], 0)

  predicate HasId(rows: seq<Appointment>, id: nat)
  {
    exists i :: 0 <= i < |rows| && rows[i].id == id
  }

  /** Ids strictly increase along the rows: AUTOINCREMENT hands them out in
      increasing order and `SELECT *` lists rows in rowid order. In particular
      no two rows share an id, the primary key. */
  predicate Ascending(rows: seq<Appointment>)
  {
    forall i, j :: 0 <= i < j < |rows| ==> rows[i].id < rows[j].id
  }

  /** Ids are increasing primary keys, positive, and not above the high-water mark. */
  predicate Valid(t: Table)
  {
    && Ascending(t.rows)
    && (forall i :: 0 <= i < |t.rows| ==> 0 < t.rows[i].id <= t.lastId)
  }

  /** `INSERT INTO appointments (name, ...) VALUES (...)`: one row is appended
      under an id no row has had before; the rows already there stay as they are. */
  function Insert(t: Table, f: Fields): (r: Table)
    ensures |r.rows| == |t.rows| + 1 && r.rows[..|t.rows|] == t.rows
    ensures r.rows[|t.rows|].fields == f
    ensures t.lastId < r.rows[|t.rows|].id == r.lastId
    ensures Valid(t) ==> Valid(r) && !HasId(t.rows, r.rows[|t.rows|].id)
  {
    Table(t.rows + [Appointment(t.lastId + 1, f)], t.lastId + 1)
  }

  /** The rows whose (name, phone) is not in `keys`, in their original order:
      what `DELETE ... WHERE name = ? AND phone = ?` leaves, for each key. */
  function DeleteKeys(rows: seq<Appointment>, keys: set<Key>): (r: seq<Appointment>)
    ensures forall a :: a in r <==> a in rows && KeyOf(a) !in keys
  {
    if |rows| == 0 then []
    else
      assert rows == [rows[0]] + rows[1..];
      (if KeyOf(rows[0]) in keys then [] else [rows[0]]) + DeleteKeys(rows[1..], keys)
  }

  /** `DELETE FROM appointments WHERE name = ? AND phone = ?`. */
  function DeleteWhere(t: Table, k: Key): (r: Table)
    ensures r.lastId == t.lastId
    ensures forall a :: a in r.rows <==> a in t.rows && KeyOf(a) != k
  {
    Table(DeleteKeys(t.rows, {k}), t.lastId)
  }

  /** A row survives as often as it occurred, unless its pair is deleted. */
  lemma {:induction false} DeleteKeysCount(rows: seq<Appointment>, keys: set<Key>, a: Appointment)
    ensures multiset(DeleteKeys(rows, keys))[a] == if KeyOf(a) in keys then 0 else multiset(rows)[a]
  {
    if |rows| > 0 {
      DeleteKeysCount(rows[1..], keys, a);
      assert rows == [rows[0]] + rows[1..];
      assert multiset(rows) == multiset([rows[0]]) + multiset(rows[1..]);
    }
  }

  /** Deleting distributes over concatenation: survivors keep their order. */
  lemma {:induction false} DeleteKeysAppend(xs: seq<Appointment>, ys: seq<Appointment>, keys: set<Key>)
    ensures DeleteKeys(xs + ys, keys) == DeleteKeys(xs, keys) + DeleteKeys(ys, keys)
  {
    if |xs| == 0 {
      assert xs + ys == ys;
    } else {
      var zs := xs + ys;
      assert zs[0] == xs[0];
      assert zs[1..] == xs[1..] + ys;
      DeleteKeysAppend(xs[1..], ys, keys);
    }
  }

  /** A pair no row carries leaves the table exactly as it was. */
  lemma {:induction false} DeleteKeysNoMatch(rows: seq<Appointment>, keys: set<Key>)
    requires forall i :: 0 <= i < |rows| ==> KeyOf(rows[i]) !in keys
    ensures DeleteKeys(rows, keys) == rows
  {
    if |rows| > 0 {
      DeleteKeysNoMatch(rows[1..], keys);
      assert rows == [rows[0]] + rows[1..];
    }
  }

  /** Two deletions in a row are one deletion of both key sets; in particular
      the order of the deletions does not matter, and repeating one is harmless. */
  lemma {:induction false} DeleteKeysTwice(rows: seq<Appointment>, a: set<Key>, b: set<Key>)
    ensures DeleteKeys(DeleteKeys(rows, a), b) == DeleteKeys(rows, a + b)
  {
    if |rows| > 0 {
      DeleteKeysTwice(rows[1..], a, b);
      var head := if KeyOf(rows[0]) in a then [] else [rows[0]];
      DeleteKeysAppend(head, DeleteKeys(rows[1..], a), b);
    }
  }

  /** A subsequence-preserving filter keeps ids increasing. */
  lemma {:induction false} DeleteKeysAscending(rows: seq<Appointment>, keys: set<Key>)
    requires Ascending(rows)
    ensures Ascending(DeleteKeys(rows, keys))
  {
    if |rows| > 0 {
      assert Ascending(rows[1..]) by {
        forall i, j | 0 <= i < j < |rows[1..]|
          ensures rows[1..][i].id < rows[1..][j].id
        {
          assert rows[1..][i] == rows[i + 1] && rows[1..][j] == rows[j + 1];
        }
      }
      DeleteKeysAscending(rows[1..], keys);
      var tail := DeleteKeys(rows[1..], keys);
      forall j | 0 <= j < |tail|
        ensures rows[0].id < tail[j].id
      {
        assert tail[j] in rows[1..];
        var m :| 0 <= m < |rows[1..]| && rows[1..][m] == tail[j];
        assert rows[m + 1] == tail[j];
      }
      var r := DeleteKeys(rows, keys);
      if KeyOf(rows[0]) !in keys {
        assert r == [rows[0]] + tail;
        forall i, j | 0 <= i < j < |r|
          ensures r[i].id < r[j].id
        {
          if i > 0 {
            assert r[i] == tail[i - 1] && r[j] == tail[j - 1];
            assert tail[i - 1].id < tail[j - 1].id;
          } else {
            assert r[j] == tail[j - 1];
          }
        }
      } else {
        assert r == tail;
      }
    }
  }

  /** Deleting keeps the table valid. */
  lemma DeleteKeysValid(t: Table, keys: set<Key>)
    requires Valid(t)
    ensures Valid(Table(DeleteKeys(t.rows, keys), t.lastId))
  {
    DeleteKeysAscending(t.rows, keys);
    var r := DeleteKeys(t.rows, keys);
    forall i | 0 <= i < |r|
      ensures 0 < r[i].id <= t.lastId
    {
      assert r[i] in t.rows;
    }
  }

  /** `SELECT * FROM appointments WHERE name = ? AND phone = ?` then `fetchone()`:
      some row carrying the pair, or nothing when no row does. Which of several
      matching rows comes back is left unspecified. */
  function FindBy(rows: seq<Appointment>, k: Key): (r: Option<Appointment>)
    ensures r.None? <==> forall i :: 0 <= i < |rows| ==> KeyOf(rows[i]) != k
    ensures r.Some? ==> r.value in rows && KeyOf(r.value) == k
  {
    if |rows| == 0 then None
    else if KeyOf(rows[0]) == k then Some(rows[0])
    else
      var r := FindBy(rows[1..], k);
      assert forall i :: 0 < i < |rows| ==> rows[i] == rows[1..][i - 1];
      r
  }

  /** The rows with the row of id `id` given the fields `f` and its id kept. */
  function UpdateRows(rows: seq<Appointment>, id: nat, f: Fields): (r: seq<Appointment>)
    ensures |r| == |rows|
    ensures forall i :: 0 <= i < |rows| && rows[i].id != id ==> r[i] == rows[i]
    ensures forall i :: 0 <= i < |rows| && rows[i].id == id ==> r[i] == Appointment(id, f)
  {
    if |rows| == 0 then []
    else
      [if rows[0].id == id then Appointment(id, f) else rows[0]] + UpdateRows(rows[1..], id, f)
  }

  /** `UPDATE appointments SET name = ?, ..., time = ? WHERE id = ?`. */
  function UpdateById(t: Table, id: nat, f: Fields): (r: Table)
    ensures r.lastId == t.lastId && |r.rows| == |t.rows|
    ensures forall i :: 0 <= i < |t.rows| ==> r.rows[i].id == t.rows[i].id
    ensures forall i :: 0 <= i < |t.rows| && t.rows[i].id != id ==> r.rows[i] == t.rows[i]
    ensures forall i :: 0 <= i < |t.rows| && t.rows[i].id == id ==> r.rows[i].fields == f
  {
    Table(UpdateRows(t.rows, id, f), t.lastId)
  }

  /** Updating the row at position `k` replaces that row and no other, even rows
      with the same (name, phone), and keeps its id and the table valid. */
  lemma UpdateOneRow(t: Table, k: int, f: Fields)
    requires Valid(t) && 0 <= k < |t.rows|
    ensures UpdateById(t, t.rows[k].id, f).rows == t.rows[k := Appointment(t.rows[k].id, f)]
    ensures Valid(UpdateById(t, t.rows[k].id, f))
  {
  }

  /** An id no row carries makes the update a no-op. */
  lemma UpdateMissing(t: Table, id: nat, f: Fields)
    requires !HasId(t.rows, id)
    ensures UpdateById(t, id, f) == t
  {
    var r := UpdateById(t, id, f);
    assert r.rows == t.rows;
  }

  /** The last of two updates of the same row wins. */
  lemma UpdateOverwrites(t: Table, id: nat, f: Fields, g: Fields)
    ensures UpdateById(UpdateById(t, id, f), id, g) == UpdateById(t, id, g)
  {
  }

  /** After an update that gives the row at `k` a pair no other row carries,
      looking that pair up finds exactly the updated row. */
  lemma UpdateThenFind(t: Table, k: int, f: Fields)
    requires Valid(t) && 0 <= k < |t.rows|
    requires forall j :: 0 <= j < |t.rows| && j != k ==> KeyOf(t.rows[j]) != Key(f.name, f.phone)
    ensures FindBy(UpdateById(t, t.rows[k].id, f).rows, Key(f.name, f.phone))
      == Some(Appointment(t.rows[k].id, f))
  {
    var r := UpdateById(t, t.rows[k].id, f);
    UpdateOneRow(t, k, f);
    assert r.rows[k] == Appointment(t.rows[k].id, f);
    var found := FindBy(r.rows, Key(f.name, f.phone));
    assert found.Some?;
    var j :| 0 <= j < |r.rows| && r.rows[j] == found.value;
  }
}
