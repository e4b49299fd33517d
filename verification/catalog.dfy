/** The `services` and `stylists` tables: seeded with fixed defaults when empty,
    then read once into name-keyed dictionaries. */
module Catalog {

  /** A row of `services`; prices are whole amounts (every seeded price is). */
  datatype ServiceRow = ServiceRow(name: string, price: nat)

  /** The columns of `stylists` besides the name key. */
  datatype StylistInfo = StylistInfo(experience: string, specialty: string, email: string)

  /** A row of `stylists`. */
  datatype StylistRow = StylistRow(name: string, info: StylistInfo)

  const DefaultServices: seq<ServiceRow> := [
    ServiceRow("Haircut", 80),
    ServiceRow("Manicure", 150),
    ServiceRow("Pedicure", 150),
    ServiceRow("Facial", 1500),
    ServiceRow("Massage", 500)
  ]

  const DefaultStylists: seq<StylistRow> := [
    StylistRow("Anna Reyes", StylistInfo("6 years", "Haircuts, Color, Rebond", "anna@example.com")),
    StylistRow("Jane Bien", StylistInfo("4 years", "Manicure, Pedicure, Nail Art", "jane@example.com")),
    StylistRow("Emily Davis", StylistInfo("8 years", "Facial, Massage", "emily@example.com")),
    StylistRow("Lara Hernandez", StylistInfo("4 years", "Haircuts, Color, Hair Treatment", "lara@example.com"))
  ]

  /** The `service_name` primary key holds. */
  predicate UniqueServiceNames(rows: seq<ServiceRow>)
  {
    forall i, j :: 0 <= i < j < |rows| ==> rows[i].name != rows[j].name
  }

  /** The `name` primary key holds. */
  predicate UniqueStylistNames(rows: seq<StylistRow>)
  {
    forall i, j :: 0 <= i < j < |rows| ==> rows[i].name != rows[j].name
  }

  /** Insert the default services only when the table has no row. */
  function PopulateServices(rows: seq<ServiceRow>): (r: seq<ServiceRow>)
    ensures |rows| == 0 ==> r == DefaultServices
    ensures |rows| > 0 ==> r == rows
    ensures UniqueServiceNames(rows) ==> UniqueServiceNames(r)
  {
    if |rows| == 0 then DefaultServices else rows
  }

  /** Insert the default stylists only when the table has no row. */
  function PopulateStylists(rows: seq<StylistRow>): (r: seq<StylistRow>)
    ensures |rows| == 0 ==> r == DefaultStylists
    ensures |rows| > 0 ==> r == rows
    ensures UniqueStylistNames(rows) ==> UniqueStylistNames(r)
  {
    if |rows| == 0 then DefaultStylists else rows
  }

  /** Seeding twice is seeding once: a second start-up changes nothing. */
  lemma PopulateIdempotent(services: seq<ServiceRow>, stylists: seq<StylistRow>)
    ensures PopulateServices(PopulateServices(services)) == PopulateServices(services)
    ensures PopulateStylists(PopulateStylists(stylists)) == PopulateStylists(stylists)
  {
  }

  predicate HasService(rows: seq<ServiceRow>, name: string)
  {
    exists i :: 0 <= i < |rows| && rows[i].name == name
  }

  /** Row `i` is the last one carrying its name (the one a dictionary keeps). */
  predicate LastService(rows: seq<ServiceRow>, i: int)
    requires 0 <= i < |rows|
  {
    forall j :: i < j < |rows| ==> rows[j].name != rows[i].name
  }

  /** `{row[0]: row[1] for row in SELECT * FROM services}`: later rows
      overwrite earlier ones with the same name. */
  function FetchServices(rows: seq<ServiceRow>): (m: map<string, nat>)
    ensures |rows| > 0 ==> rows[|rows| - 1].name in m && m[rows[|rows| - 1].name] == rows[|rows| - 1].price
    ensures |m| <= |rows|
  {
    if |rows| == 0 then map[]
    else FetchServices(rows[..|rows| - 1])[rows[|rows| - 1].name := rows[|rows| - 1].price]
  }

  /** The dictionary has a key for each name in the table and no other. */
  lemma {:induction false} FetchServicesKeys(rows: seq<ServiceRow>, name: string)
    ensures name in FetchServices(rows) <==> HasService(rows, name)
  {
    if |rows| > 0 {
      var init := rows[..|rows| - 1];
      FetchServicesKeys(init, name);
      if HasService(init, name) {
        var i :| 0 <= i < |init| && init[i].name == name;
        assert rows[i].name == name;
      }
      if HasService(rows, name) && rows[|rows| - 1].name != name {
        var i :| 0 <= i < |rows| && rows[i].name == name;
        assert init[i].name == name;
      }
    }
  }

  /** Each name maps to the price of the last row that carries it. */
  lemma {:induction false} FetchServicesValue(rows: seq<ServiceRow>, i: int)
    requires 0 <= i < |rows| && LastService(rows, i)
    ensures rows[i].name in FetchServices(rows)
    ensures FetchServices(rows)[rows[i].name] == rows[i].price
  {
    if i < |rows| - 1 {
      var init := rows[..|rows| - 1];
      assert init[i] == rows[i];
      assert LastService(init, i);
      FetchServicesValue(init, i);
    }
  }

  predicate HasStylist(rows: seq<StylistRow>, name: string)
  {
    exists i :: 0 <= i < |rows| && rows[i].name == name
  }

  predicate LastStylist(rows: seq<StylistRow>, i: int)
    requires 0 <= i < |rows|
  {
    forall j :: i < j < |rows| ==> rows[j].name != rows[i].name
  }

  /** `{row[0]: {"experience": ..., "specialty": ..., "email": ...} for row in
      SELECT * FROM stylists}`: later rows overwrite earlier ones. */
  function FetchStylists(rows: seq<StylistRow>): (m: map<string, StylistInfo>)
    ensures |rows| > 0 ==> rows[|rows| - 1].name in m && m[rows[|rows| - 1].name] == rows[|rows| - 1].info
    ensures |m| <= |rows|
  {
    if |rows| == 0 then map[]
    else FetchStylists(rows[..|rows| - 1])[rows[|rows| - 1].name := rows[|rows| - 1].info]
  }

  /** The dictionary has a key for each stylist in the table and no other. */
  lemma {:induction false} FetchStylistsKeys(rows: seq<StylistRow>, name: string)
    ensures name in FetchStylists(rows) <==> HasStylist(rows, name)
  {
    if |rows| > 0 {
      var init := rows[..|rows| - 1];
      FetchStylistsKeys(init, name);
      if HasStylist(init, name) {
        var i :| 0 <= i < |init| && init[i].name == name;
        assert rows[i].name == name;
      }
      if HasStylist(rows, name) && rows[|rows| - 1].name != name {
        var i :| 0 <= i < |rows| && rows[i].name == name;
        assert init[i].name == name;
      }
    }
  }

  /** Each stylist maps to the details of the last row that carries the name. */
  lemma {:induction false} FetchStylistsValue(rows: seq<StylistRow>, i: int)
    requires 0 <= i < |rows| && LastStylist(rows, i)
    ensures rows[i].name in FetchStylists(rows)
    ensures FetchStylists(rows)[rows[i].name] == rows[i].info
  {
    if i < |rows| - 1 {
      var init := rows[..|rows| - 1];
      assert init[i] == rows[i];
      assert LastStylist(init, i);
      FetchStylistsValue(init, i);
    }
  }

  /** With the primary key in force, the dictionary holds every row exactly. */
  lemma FetchServicesExact(rows: seq<ServiceRow>)
    requires UniqueServiceNames(rows)
    ensures forall i :: 0 <= i < |rows| ==>
      rows[i].name in FetchServices(rows) && FetchServices(rows)[rows[i].name] == rows[i].price
  {
    forall i | 0 <= i < |rows|
      ensures rows[i].name in FetchServices(rows) && FetchServices(rows)[rows[i].name] == rows[i].price
    {
      assert LastService(rows, i);
      FetchServicesValue(rows, i);
    }
  }

  /** First start-up on an empty database: the service dictionary is exactly
      the five defaults with their prices. */
  lemma SeededServices()
    ensures FetchServices(PopulateServices([])) ==
      map["Haircut" := 80, "Manicure" := 150, "Pedicure" := 150, "Facial" := 1500, "Massage" := 500]
  {
    var s1 := [ServiceRow("Haircut", 80)];
    var s2 := s1 + [ServiceRow("Manicure", 150)];
    var s3 := s2 + [ServiceRow("Pedicure", 150)];
    var s4 := s3 + [ServiceRow("Facial", 1500)];
    var s5 := s4 + [ServiceRow("Massage", 500)];
    assert s1[..0] == [] && s2[..1] == s1 && s3[..2] == s2 && s4[..3] == s3 && s5[..4] == s4;
    assert FetchServices(s1) == map["Haircut" := 80];
    assert FetchServices(s2) == map["Haircut" := 80, "Manicure" := 150];
    assert FetchServices(s3) == map["Haircut" := 80, "Manicure" := 150, "Pedicure" := 150];
    assert FetchServices(s4) == map["Haircut" := 80, "Manicure" := 150, "Pedicure" := 150, "Facial" := 1500];
    assert DefaultServices == s5;
  }

  /** First start-up on an empty database: the stylist dictionary is exactly
      the four defaults with their details. */
  lemma SeededStylists()
    ensures FetchStylists(PopulateStylists([])) == map[
      "Anna Reyes" := StylistInfo("6 years", "Haircuts, Color, Rebond", "anna@example.com"),
      "Jane Bien" := StylistInfo("4 years", "Manicure, Pedicure, Nail Art", "jane@example.com"),
      "Emily Davis" := StylistInfo("8 years", "Facial, Massage", "emily@example.com"),
      "Lara Hernandez" := StylistInfo("4 years", "Haircuts, Color, Hair Treatment", "lara@example.com")]
  {
    var a := StylistInfo("6 years", "Haircuts, Color, Rebond", "anna@example.com");
    var j := StylistInfo("4 years", "Manicure, Pedicure, Nail Art", "jane@example.com");
    var e := StylistInfo("8 years", "Facial, Massage", "emily@example.com");
    var l := StylistInfo("4 years", "Haircuts, Color, Hair Treatment", "lara@example.com");
    var s1 := [StylistRow("Anna Reyes", a)];
    var s2 := s1 + [StylistRow("Jane Bien", j)];
    var s3 := s2 + [StylistRow("Emily Davis", e)];
    var s4 := s3 + [StylistRow("Lara Hernandez", l)];
    assert s1[..0] == [] && s2[..1] == s1 && s3[..2] == s2 && s4[..3] == s3;
    assert FetchStylists(s1) == map["Anna Reyes" := a];
    assert FetchStylists(s2) == map["Anna Reyes" := a, "Jane Bien" := j];
    assert FetchStylists(s3) == map["Anna Reyes" := a, "Jane Bien" := j, "Emily Davis" := e];
    assert DefaultStylists == s4;
  }

  /** On a database that already has catalog rows, start-up reads them back
      untouched: no default is added. */
  lemma NonEmptyCatalogKept(services: seq<ServiceRow>, stylists: seq<StylistRow>)
    requires |services| > 0 && |stylists| > 0
    ensures FetchServices(PopulateServices(services)) == FetchServices(services)
    ensures FetchStylists(PopulateStylists(stylists)) == FetchStylists(stylists)
  {
  }
}
