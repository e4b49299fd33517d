/** The admin panel: the three table views, and the Delete, Update and
    Save Changes actions, which address appointments through the first two
    displayed values of the selected rows. */
module Admin {
  import opened Results
  import opened Text
  import opened Appointments
  import Catalog

  /** A displayed row: the values of one tree-view item, as strings. */
  type TreeRow = seq<string>

  /** An appointment as "Customer Information" shows it: every column but the id. */
  function CustomerRow(a: Appointment): (row: TreeRow)
    ensures |row| == 7 && row[0] == a.fields.name && row[1] == a.fields.phone
  {
    [a.fields.name, a.fields.phone, a.fields.email, a.fields.service,
     a.fields.stylist, a.fields.date, a.fields.time]
  }

  /** The fields an editing form reads back from a displayed customer row. */
  function RowFields(row: TreeRow): Fields
    requires |row| == 7
  {
    Fields(row[0], row[1], row[2], row[3], row[4], row[5], row[6])
  }

  /** Dropping the id loses nothing else: the seven fields come back intact. */
  lemma CustomerRowRoundTrip(a: Appointment)
    ensures RowFields(CustomerRow(a)) == a.fields
  {
  }

  /** "Customer Information": one row per appointment, in table order. */
  function CustomerRows(rows: seq<Appointment>): (view: seq<TreeRow>)
    ensures |view| == |rows|
    ensures forall i :: 0 <= i < |rows| ==> view[i] == CustomerRow(rows[i])
  {
    seq(|rows|, i requires 0 <= i < |rows| => CustomerRow(rows[i]))
  }

  /** "Stylist Information": name, experience, specialty, email. */
  function StylistRows(rows: seq<Catalog.StylistRow>): (view: seq<TreeRow>)
    ensures |view| == |rows|
    ensures forall i :: 0 <= i < |rows| ==>
      view[i] == [rows[i].name, rows[i].info.experience, rows[i].info.specialty, rows[i].info.email]
  {
    seq(|rows|, i requires 0 <= i < |rows| =>
      [rows[i].name, rows[i].info.experience, rows[i].info.specialty, rows[i].info.email])
  }

  /** "Services and Prices": name and price as printed. */
  function ServiceRows(rows: seq<Catalog.ServiceRow>): (view: seq<TreeRow>)
    ensures |view| == |rows|
    ensures forall i :: 0 <= i < |rows| ==> view[i] == [rows[i].name, PriceText(rows[i].price)]
  {
    seq(|rows|, i requires 0 <= i < |rows| => [rows[i].name, PriceText(rows[i].price)])
  }

  /** With the primary key in force, the services view shows exactly what
      the dictionary read at start-up holds: each row is a key with its
      price, every key has a row, and no name is shown twice. */
  lemma ServiceViewMatches(services: seq<Catalog.ServiceRow>)
    requires Catalog.UniqueServiceNames(services)
    ensures forall i :: 0 <= i < |services| ==>
      ServiceRows(services)[i][0] in Catalog.FetchServices(services) &&
      ServiceRows(services)[i][1] == PriceText(Catalog.FetchServices(services)[ServiceRows(services)[i][0]])
    ensures forall name :: name in Catalog.FetchServices(services) ==>
      exists i :: 0 <= i < |services| && ServiceRows(services)[i][0] == name
    ensures forall i, j :: 0 <= i < j < |services| ==> ServiceRows(services)[i][0] != ServiceRows(services)[j][0]
  {
    var m := Catalog.FetchServices(services);
    var view := ServiceRows(services);
    forall i | 0 <= i < |services|
      ensures view[i][0] in m && view[i][1] == PriceText(m[view[i][0]])
    {
      assert Catalog.LastService(services, i);
      Catalog.FetchServicesValue(services, i);
    }
    forall name | name in m
      ensures exists i :: 0 <= i < |services| && view[i][0] == name
    {
      Catalog.FetchServicesKeys(services, name);
      var i :| 0 <= i < |services| && services[i].name == name;
      assert view[i][0] == name;
    }
  }

  /** The stylists view shows, likewise, exactly the stylist dictionary. */
  lemma StylistViewMatches(stylists: seq<Catalog.StylistRow>)
    requires Catalog.UniqueStylistNames(stylists)
    ensures forall i :: 0 <= i < |stylists| ==>
      StylistRows(stylists)[i][0] in Catalog.FetchStylists(stylists) &&
      StylistRows(stylists)[i][1..] == [
        Catalog.FetchStylists(stylists)[StylistRows(stylists)[i][0]].experience,
        Catalog.FetchStylists(stylists)[StylistRows(stylists)[i][0]].specialty,
        Catalog.FetchStylists(stylists)[StylistRows(stylists)[i][0]].email]
    ensures forall name :: name in Catalog.FetchStylists(stylists) ==>
      exists i :: 0 <= i < |stylists| && StylistRows(stylists)[i][0] == name
    ensures forall i, j :: 0 <= i < j < |stylists| ==> StylistRows(stylists)[i][0] != StylistRows(stylists)[j][0]
  {
    var m := Catalog.FetchStylists(stylists);
    var view := StylistRows(stylists);
    forall i | 0 <= i < |stylists|
      ensures view[i][0] in m && view[i][1..] == [m[view[i][0]].experience, m[view[i][0]].specialty, m[view[i][0]].email]
    {
      assert Catalog.LastStylist(stylists, i);
      Catalog.FetchStylistsValue(stylists, i);
    }
    forall name | name in m
      ensures exists i :: 0 <= i < |stylists| && view[i][0] == name
    {
      Catalog.FetchStylistsKeys(stylists, name);
      var i :| 0 <= i < |stylists| && stylists[i].name == name;
      assert view[i][0] == name;
    }
  }

  /** Every displayed row has the two values Delete and Update read. */
  predicate Wide(view: seq<TreeRow>)
  {
    forall i :: 0 <= i < |view| ==> |view[i]| >= 2
  }

  /** A selection: positions of displayed rows, in the order the view reports them. */
  predicate InView(view: seq<TreeRow>, sel: seq<nat>)
  {
    forall k :: 0 <= k < |sel| ==> sel[k] < |view|
  }

  /** The (name, phone) pair a displayed row stands for: its first two values. */
  function RowKey(row: TreeRow): Key
    requires |row| >= 2
  {
    Key(row[0], row[1])
  }

  /** The pairs of the selected rows, in selection order. */
  function SelectedKeys(view: seq<TreeRow>, sel: seq<nat>): (keys: seq<Key>)
    requires Wide(view) && InView(view, sel)
    ensures |keys| == |sel|
    ensures forall k :: 0 <= k < |sel| ==> keys[k] == RowKey(view[sel[k]])
  {
    seq(|sel|, k requires 0 <= k < |sel| => RowKey(view[sel[k]]))
  }

  function KeySet(keys: seq<Key>): set<Key>
  {
    set k | k in keys
  }

  /** One `DELETE ... WHERE name = ? AND phone = ?` per selected row, in order:
      together they delete every row carrying any of the pairs. */
  function DeleteEach(rows: seq<Appointment>, keys: seq<Key>): (r: seq<Appointment>)
    ensures r == DeleteKeys(rows, KeySet(keys))
    decreases |keys|
  {
    if |keys| == 0 then
      DeleteKeysNoMatch(rows, {});
      assert KeySet(keys) == {};
      rows
    else
      DeleteKeysTwice(rows, {keys[0]}, KeySet(keys[1..]));
      assert KeySet(keys) == {keys[0]} + KeySet(keys[1..]);
      DeleteEach(DeleteKeys(rows, {keys[0]}), keys[1..])
  }

  /** The positions below `n` that are not selected, in increasing order,
      each exactly once. */
  function KeptPositions(n: nat, sel: seq<nat>): (ps: seq<nat>)
    ensures forall j :: 0 <= j < |ps| ==> ps[j] < n && ps[j] !in sel
    ensures forall j, k :: 0 <= j < k < |ps| ==> ps[j] < ps[k]
    ensures forall p :: 0 <= p < n && p !in sel ==> p in ps
  {
    if n == 0 then [] else KeptPositions(n - 1, sel) + (if n - 1 in sel then [] else [n - 1])
  }

  /** The view once each selected item is removed from it: the rows at the
      unselected positions, in their order. */
  function Unselected(view: seq<TreeRow>, sel: seq<nat>): (r: seq<TreeRow>)
    ensures |r| == |KeptPositions(|view|, sel)|
    ensures forall j :: 0 <= j < |r| ==> r[j] == view[KeptPositions(|view|, sel)[j]]
  {
    if |view| == 0 then []
    else
      var init := view[..|view| - 1];
      var rest := Unselected(init, sel);
      assert forall j :: 0 <= j < |rest| ==> rest[j] == view[KeptPositions(|init|, sel)[j]];
      rest + (if |view| - 1 in sel then [] else [view[|view| - 1]])
  }

  /** Every unselected row stays in the view, which stays wide. */
  lemma UnselectedKeeps(view: seq<TreeRow>, sel: seq<nat>)
    requires Wide(view)
    ensures forall i :: 0 <= i < |view| && i !in sel ==> view[i] in Unselected(view, sel)
    ensures Wide(Unselected(view, sel))
  {
    var rest := Unselected(view, sel);
    var ps := KeptPositions(|view|, sel);
    forall i | 0 <= i < |view| && i !in sel
      ensures view[i] in rest
    {
      var j :| 0 <= j < |ps| && ps[j] == i;
      assert rest[j] == view[i];
    }
  }

  /** A selected row that occurs nowhere else in the view leaves it. */
  lemma UnselectedDrops(view: seq<TreeRow>, sel: seq<nat>)
    requires InView(view, sel)
    ensures forall k :: 0 <= k < |sel| && view[sel[k]] !in view[..sel[k]] + view[sel[k] + 1..] ==>
      view[sel[k]] !in Unselected(view, sel)
  {
    var rest := Unselected(view, sel);
    var ps := KeptPositions(|view|, sel);
    forall k | 0 <= k < |sel| && view[sel[k]] !in view[..sel[k]] + view[sel[k] + 1..]
      ensures view[sel[k]] !in rest
    {
      forall j | 0 <= j < |rest|
        ensures rest[j] != view[sel[k]]
      {
        var i := ps[j];
        assert rest[j] == view[i] && i != sel[k];
        if i < sel[k] {
          assert view[..sel[k]][i] == view[i];
        } else {
          assert view[sel[k] + 1..][i - sel[k] - 1] == view[i];
        }
      }
    }
  }

  /** What a Delete leaves: the table and the view without the selected rows. */
  datatype Deleted = Deleted(table: Table, view: seq<TreeRow>)

  /** The Delete button. With nothing selected it reports the error and
      changes nothing. Otherwise each selected row leaves the view, and every
      appointment carrying the (name, phone) of any selected row leaves the
      table, selected or not; a pair no appointment carries deletes nothing
      and still reports success. */
  function DeleteSelected(t: Table, view: seq<TreeRow>, sel: seq<nat>): (r: Result<Deleted>)
    requires Wide(view) && InView(view, sel)
    ensures r.Err? <==> |sel| == 0
    ensures r.Err? ==> r.error == NoSelection
    ensures r.Ok? ==> r.value.table.lastId == t.lastId
    ensures r.Ok? ==> r.value.table.rows == DeleteKeys(t.rows, KeySet(SelectedKeys(view, sel)))
    ensures r.Ok? ==> forall a ::
      a in r.value.table.rows <==> a in t.rows && KeyOf(a) !in KeySet(SelectedKeys(view, sel))
    ensures r.Ok? ==> r.value.view == Unselected(view, sel)
    ensures r.Ok? ==> forall i :: 0 <= i < |view| && i !in sel ==> view[i] in r.value.view
    ensures r.Ok? ==> forall k :: 0 <= k < |sel| && view[sel[k]] !in view[..sel[k]] + view[sel[k] + 1..] ==>
      view[sel[k]] !in r.value.view
    ensures r.Ok? && Valid(t) ==> Valid(r.value.table) && Wide(r.value.view)
  {
    if |sel| == 0 then Err(NoSelection)
    else
      var keys := SelectedKeys(view, sel);
      var rows := DeleteEach(t.rows, keys);
      assert Valid(t) ==> Valid(Table(rows, t.lastId)) by {
        if Valid(t) {
          DeleteKeysValid(t, KeySet(keys));
        }
      }
      var rest := Unselected(view, sel);
      UnselectedKeeps(view, sel);
      UnselectedDrops(view, sel);
      Ok(Deleted(Table(rows, t.lastId), rest))
  }

  /** The Update button: the pair of the LAST selected row is looked up; the
      appointment found pre-fills the editing form. */
  function UpdateSelected(t: Table, view: seq<TreeRow>, sel: seq<nat>): (r: Result<Appointment>)
    requires Wide(view) && InView(view, sel)
    ensures |sel| == 0 ==> r == Err(NoSelection)
    ensures |sel| > 0 ==>
      var k := RowKey(view[sel[|sel| - 1]]);
      && (r.Err? <==> forall i :: 0 <= i < |t.rows| ==> KeyOf(t.rows[i]) != k)
      && (r.Err? ==> r.error == NotFound)
      && (r.Ok? ==> r.value in t.rows && KeyOf(r.value) == k)
  {
    if |sel| == 0 then Err(NoSelection)
    else
      match FindBy(t.rows, RowKey(view[sel[|sel| - 1]]))
      case None => Err(NotFound)
      case Some(a) => Ok(a)
  }

  /** What Save Changes leaves: the table and the refreshed customer view. */
  datatype Saved = Saved(table: Table, view: seq<TreeRow>)

  /** The Save Changes button of an editing form opened on `target`: the row
      with the target's id takes the seven edited values, unchecked, and keeps
      its id; every other row stays; the view shows the customers again. */
  function SaveChanges(t: Table, target: Appointment, edited: Fields): (r: Saved)
    ensures r.table.lastId == t.lastId && |r.table.rows| == |t.rows|
    ensures forall i :: 0 <= i < |t.rows| && t.rows[i].id != target.id ==> r.table.rows[i] == t.rows[i]
    ensures forall i :: 0 <= i < |t.rows| && t.rows[i].id == target.id ==>
      r.table.rows[i] == Appointment(target.id, edited)
    ensures r.view == CustomerRows(r.table.rows)
    ensures Valid(t) ==> Valid(r.table)
  {
    var table := UpdateById(t, target.id, edited);
    assert Valid(t) ==> Valid(table) by {
      if Valid(t) {
        forall i, j | 0 <= i < j < |table.rows|
          ensures table.rows[i].id != table.rows[j].id
        {
          assert table.rows[i].id == t.rows[i].id && table.rows[j].id == t.rows[j].id;
        }
      }
    }
    Saved(table, CustomerRows(table.rows))
  }

  /** Update then Save Changes through a selection: exactly the one row found
      is rewritten and keeps its id; other rows with the same pair are untouched. */
  lemma UpdateChangesOneRow(t: Table, view: seq<TreeRow>, sel: seq<nat>, edited: Fields)
    requires Valid(t) && Wide(view) && InView(view, sel)
    requires UpdateSelected(t, view, sel).Ok?
    ensures var a := UpdateSelected(t, view, sel).value;
      exists k :: 0 <= k < |t.rows| && t.rows[k] == a
        && SaveChanges(t, a, edited).table.rows == t.rows[k := Appointment(a.id, edited)]
  {
    var a := UpdateSelected(t, view, sel).value;
    var k :| 0 <= k < |t.rows| && t.rows[k] == a;
    UpdateOneRow(t, k, edited);
  }

  /** Two bookings of one customer under the same (name, phone). */
  const Twice := Table([Appointment(1, Ana), Appointment(2, Ana)], 2)
  const Ana := Fields("Ana", "0917", "ana@mail", "Haircut", "Jane Bien", "2024-05-01", "10:00")

  /** Delete with only the first of the two selected removes both. */
  lemma DeleteRemovesBoth()
    ensures DeleteSelected(Twice, CustomerRows(Twice.rows), [0]).value.table.rows == []
  {
    var view := CustomerRows(Twice.rows);
    var deleted := DeleteSelected(Twice, view, [0]).value.table.rows;
    assert KeySet(SelectedKeys(view, [0])) == {Key("Ana", "0917")} by {
      assert SelectedKeys(view, [0]) == [Key("Ana", "0917")];
    }
    assert forall a :: a in Twice.rows ==> KeyOf(a) == Key("Ana", "0917");
  }

  /** Update with the first of the two selected rewrites exactly one of them. */
  lemma UpdateRewritesOne(edited: Fields)
    ensures UpdateSelected(Twice, CustomerRows(Twice.rows), [0]).Ok?
    ensures var a := UpdateSelected(Twice, CustomerRows(Twice.rows), [0]).value;
      exists k :: 0 <= k < |Twice.rows| && Twice.rows[k] == a
        && SaveChanges(Twice, a, edited).table.rows == Twice.rows[k := Appointment(a.id, edited)]
  {
    var view := CustomerRows(Twice.rows);
    assert Valid(Twice);
    assert KeyOf(Twice.rows[0]) == RowKey(view[0]);
    UpdateChangesOneRow(Twice, view, [0], edited);
  }

  /** After a Delete on the customer view, every appointment still in the
      table is still displayed. */
  lemma SurvivorsStayDisplayed(t: Table, sel: seq<nat>)
    requires InView(CustomerRows(t.rows), sel) && |sel| > 0
    ensures var view := CustomerRows(t.rows);
      var r := DeleteSelected(t, view, sel).value;
      forall a :: a in r.table.rows ==> CustomerRow(a) in r.view
  {
    var view := CustomerRows(t.rows);
    var r := DeleteSelected(t, view, sel).value;
    forall a | a in r.table.rows
      ensures CustomerRow(a) in r.view
    {
      var i :| 0 <= i < |t.rows| && t.rows[i] == a;
      forall k | 0 <= k < |sel|
        ensures sel[k] != i
      {
        var keys := SelectedKeys(view, sel);
        assert keys[k] == KeyOf(t.rows[sel[k]]) && keys[k] in KeySet(keys);
        assert KeyOf(t.rows[sel[k]]) != KeyOf(a);
      }
      assert i !in sel;
    }
  }

  /** The converse fails: deleting one of two bookings with the same pair
      leaves the other displayed although it is gone from the table. */
  lemma StaleRowDisplayed()
    ensures var f := Fields("Ana", "0917", "ana@mail", "Haircut", "Jane Bien", "2024-05-01", "10:00");
      var t := Table([Appointment(1, f), Appointment(2, f.(time := "11:00"))], 2);
      var r := DeleteSelected(t, CustomerRows(t.rows), [0]).value;
      CustomerRow(t.rows[1]) in r.view && t.rows[1] !in r.table.rows
  {
  }
}
