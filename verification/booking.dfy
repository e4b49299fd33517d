/** The booking form: the service menu labels, the "all fields required" check,
    recovery of the service name from its label, and the insert. */
module Booking {
  import opened Results
  import opened Text
  import opened Appointments
  import Catalog

  /** The separator between a service name and its price in a menu label. */
  const Separator := " - "

  /** The initial values of the three option menus; any of them passes validation. */
  const StylistPlaceholder := "STYLIST"
  const TimePlaceholder := "TIME"
  const PaymentPlaceholder := "Payment Method"

  /** The menu label of a service: `f"{service} - ${price}"`. */
  function ServiceLabel(s: Catalog.ServiceRow): (r: string)
    ensures |r| > |s.name| + |Separator| && r[..|s.name|] == s.name && OccursAt(r, Separator, |s.name|)
    ensures r[|s.name| + |Separator|..] == "$" + PriceText(s.price)
  {
    s.name + Separator + "$" + PriceText(s.price)
  }

  /** The service menu, one label per catalog entry, in catalog order. */
  function ServiceMenu(services: seq<Catalog.ServiceRow>): (labels: seq<string>)
    ensures |labels| == |services|
    ensures forall i :: 0 <= i < |services| ==> labels[i] == ServiceLabel(services[i])
  {
    seq(|services|, i requires 0 <= i < |services| => ServiceLabel(services[i]))
  }

  /** With the primary key in force, the menu built from the table lists,
      for each name in the service dictionary, that name with its price. */
  lemma MenuMatchesDictionary(services: seq<Catalog.ServiceRow>)
    requires Catalog.UniqueServiceNames(services)
    ensures forall i :: 0 <= i < |services| ==>
      services[i].name in Catalog.FetchServices(services) &&
      ServiceMenu(services)[i] == ServiceLabel(Catalog.ServiceRow(services[i].name, Catalog.FetchServices(services)[services[i].name]))
  {
    var m := Catalog.FetchServices(services);
    var menu := ServiceMenu(services);
    forall i | 0 <= i < |services|
      ensures services[i].name in m && menu[i] == ServiceLabel(Catalog.ServiceRow(services[i].name, m[services[i].name]))
    {
      assert Catalog.LastService(services, i);
      Catalog.FetchServicesValue(services, i);
      assert Catalog.ServiceRow(services[i].name, m[services[i].name]) == services[i];
    }
  }

  /** Every service in the dictionary has a menu entry that starts with its name. */
  lemma MenuListsEveryService(services: seq<Catalog.ServiceRow>, name: string)
    requires name in Catalog.FetchServices(services)
    ensures exists i :: 0 <= i < |services| && name <= ServiceMenu(services)[i]
  {
    Catalog.FetchServicesKeys(services, name);
    var i :| 0 <= i < |services| && services[i].name == name;
    assert ServiceMenu(services)[i] == ServiceLabel(services[i]);
  }

  /** `selected.split(" - ")[0]`: the service name stored for a selected label. */
  function ServiceName(selected: string): (name: string)
    ensures name <= selected
    ensures !Contains(name, Separator)
    ensures forall i: nat :: i < |name| ==> !OccursAt(selected, Separator, i)
    ensures |name| == |selected| || OccursAt(selected, Separator, |name|)
  {
    var name := FirstSegment(selected, Separator);
    assert !Contains(name, Separator) by {
      forall i: nat
        ensures !OccursAt(name, Separator, i)
      {
        if i + |Separator| <= |name| {
          assert selected[i..i + |Separator|] == name[i..i + |Separator|];
          assert !OccursAt(selected, Separator, i);
        }
      }
    }
    name
  }

  /** A name that round-trips through its label: neither it, nor it followed by the blank
      that opens the separator, contains the separator. */
  predicate LabelSafe(name: string)
  {
    !Contains(name + " ", Separator)
  }

  /** Splitting `name + " - " + rest` gives back `name` whatever follows,
      however many separators `rest` holds. */
  lemma SplitJoin(name: string, rest: string)
    requires LabelSafe(name)
    ensures ServiceName(name + Separator + rest) == name
  {
    var s := name + Separator + rest;
    var r := FirstSegment(s, Separator);
    assert OccursAt(s, Separator, |name|) by {
      assert s[|name|..|name| + |Separator|] == Separator;
    }
    forall i: nat | i < |name|
      ensures !OccursAt(s, Separator, i)
    {
      if i + |Separator| <= |name| + 1 {
        assert (name + " ")[i..i + |Separator|] == s[i..i + |Separator|];
        assert !OccursAt(name + " ", Separator, i);
      } else {
        assert s[i..i + |Separator|][1] == s[i + 1] == ' ';
      }
    }
    assert |r| == |name|;
    assert r == s[..|name|];
  }

  /** Conversely, a name that comes back from every such label is label-safe:
      `LabelSafe` is exactly the condition for the round trip. */
  lemma SplitJoinOnlyIf(name: string, rest: string)
    requires ServiceName(name + Separator + rest) == name
    ensures LabelSafe(name)
  {
    var s := name + Separator + rest;
    forall j: nat
      ensures !OccursAt(name + " ", Separator, j)
    {
      if j + |Separator| <= |name| + 1 {
        assert (name + " ")[j..j + |Separator|] == s[j..j + |Separator|];
        assert !OccursAt(s, Separator, j);
      }
    }
  }

  /** The label of a service with a label-safe name yields that name. */
  lemma LabelRoundTrip(s: Catalog.ServiceRow)
    requires LabelSafe(s.name)
    ensures ServiceName(ServiceLabel(s)) == s.name
  {
    assert ServiceLabel(s) == s.name + Separator + ("$" + PriceText(s.price));
    SplitJoin(s.name, "$" + PriceText(s.price));
  }

  /** Leaving the separator out of a name is not enough: a name ending in
      " -" loses its last two characters. */
  lemma NameEndingInDashIsCut()
    ensures !Contains("A -", Separator)
    ensures ServiceName(ServiceLabel(Catalog.ServiceRow("A -", 80))) == "A"
  {
    var selected := ServiceLabel(Catalog.ServiceRow("A -", 80));
    assert selected[..3] == "A -";
    assert OccursAt(selected, Separator, 1) by {
      assert selected[1..1 + |Separator|] == Separator;
    }
    assert !OccursAt(selected, Separator, 0) by {
      assert selected[0] == 'A';
    }
  }

  /** The five seeded services all round-trip through their labels. */
  lemma DefaultLabelsRoundTrip()
    ensures forall i :: 0 <= i < |Catalog.DefaultServices| ==>
      ServiceName(ServiceLabel(Catalog.DefaultServices[i])) == Catalog.DefaultServices[i].name
  {
    forall i | 0 <= i < |Catalog.DefaultServices|
      ensures ServiceName(ServiceLabel(Catalog.DefaultServices[i])) == Catalog.DefaultServices[i].name
    {
      var name := Catalog.DefaultServices[i].name;
      assert LabelSafe(name) by {
        var t := name + " ";
        assert '-' !in t;
        forall j: nat
          ensures !OccursAt(t, Separator, j)
        {
          if j + |Separator| <= |t| {
            assert t[j..j + |Separator|][1] == t[j + 1];
          }
        }
      }
      LabelRoundTrip(Catalog.DefaultServices[i]);
    }
  }

  /** The eight inputs of the booking form, as the widgets return them. */
  datatype Form = Form(
    name: string, phone: string, email: string, serviceLabel: string,
    stylist: string, date: string, time: string, payment: string)

  /** The eight inputs in the order the form reads them. */
  function Inputs(f: Form): seq<string>
  {
    [f.name, f.phone, f.email, f.serviceLabel, f.stylist, f.date, f.time, f.payment]
  }

  /** The only validation: every one of the eight inputs is non-empty. */
  predicate AllFilled(f: Form): (ok: bool)
    ensures ok <==> "" !in Inputs(f)
  {
    && f.name != "" && f.phone != "" && f.email != "" && f.serviceLabel != ""
    && f.stylist != "" && f.date != "" && f.time != "" && f.payment != ""
  }

  /** What the receipt box shows; the payment method appears here only. */
  datatype Receipt = Receipt(
    name: string, service: string, date: string, time: string,
    stylist: string, payment: string)

  /** The table after a booking and the receipt shown for it. */
  datatype Booked = Booked(table: Table, receipt: Receipt)

  /** The "Book Appointment" button: reject the form when any input is empty;
      otherwise show the receipt and append one row of seven columns under a
      fresh id, leaving every earlier row as it was. */
  function Book(t: Table, f: Form): (r: Result<Booked>)
    ensures r.Ok? <==> AllFilled(f)
    ensures r.Err? ==> r.error == ValidationError
    ensures r.Ok? ==>
      var rows := r.value.table.rows;
      && |rows| == |t.rows| + 1
      && rows[..|t.rows|] == t.rows
      && rows[|t.rows|].fields
         == Fields(f.name, f.phone, f.email, ServiceName(f.serviceLabel), f.stylist, f.date, f.time)
      && (Valid(t) ==> Valid(r.value.table) && !HasId(t.rows, rows[|t.rows|].id))
    ensures r.Ok? ==>
      r.value.receipt == Receipt(f.name, ServiceName(f.serviceLabel), f.date, f.time, f.stylist, f.payment)
  {
    if !AllFilled(f) then Err(ValidationError)
    else
      var service := ServiceName(f.serviceLabel);
      Ok(Booked(
        Insert(t, Fields(f.name, f.phone, f.email, service, f.stylist, f.date, f.time)),
        Receipt(f.name, service, f.date, f.time, f.stylist, f.payment)))
  }

  /** The option-menu placeholders are not caught: a form left on "STYLIST",
      "TIME" and "Payment Method" books, and stores "STYLIST" and "TIME". */
  lemma PlaceholdersPass(t: Table, name: string, phone: string, email: string, selected: string, date: string)
    requires name != "" && phone != "" && email != "" && selected != "" && date != ""
    ensures var r := Book(t, Form(name, phone, email, selected, StylistPlaceholder, date, TimePlaceholder, PaymentPlaceholder));
      r.Ok? && r.value.table.rows[|t.rows|].fields.stylist == StylistPlaceholder
      && r.value.table.rows[|t.rows|].fields.time == TimePlaceholder
  {
  }

  /** A non-empty label can still store an empty service name. */
  lemma EmptyServiceNameStored(t: Table)
    ensures var r := Book(t, Form("Ana", "0917", "a@b.c", " - $80.0", "Jane Bien", "2024-05-01", "10:00", "Cash"));
      r.Ok? && r.value.table.rows[|t.rows|].fields.service == ""
  {
    assert OccursAt(" - $80.0", Separator, 0) by {
      assert " - $80.0"[..|Separator|] == Separator;
    }
  }
}
