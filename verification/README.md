# Salon appointment booking — a Dafny model

This project models the domain logic of a single-user salon booking desktop
application. The application has three stores:

- an `appointments` table (id, name, phone, email, service, stylist, date, time);
- a `services` catalog (name → price);
- a `stylists` catalog (name → experience, specialty, email).

A customer logs in, fills an eight-field booking form and books. An admin
logs in, views the three stores, and updates or deletes appointments. The
admin addresses an appointment by its (name, phone) pair, not by its id.

Everything is stated as pure functions over immutable values:

- `Results` — the error dialogs as values (`AuthError`, `ValidationError`,
  `NoSelection`, `NotFound`), plus `Option` and `Result`.
- `Text` — Python's `s.split(sep)[0]`, and how an integral price read back
  from a REAL column is printed (`80` prints as `80.0`).
- `Appointments` — the table. Its rows are kept in rowid order, together with
  the AUTOINCREMENT high-water mark. It supports insert, delete by pair, find
  by pair, and update by id.
- `Catalog` — seeding the defaults into an empty table, and reading a table
  into a name-keyed dictionary.
- `Booking` — the service menu labels, the "all fields required" check, and
  the insert.
- `Admin` — the three tree views and the Delete, Update and Save Changes actions.
- `Salon` — the screens (Welcome, CustomerLogin, AdminLogin, BookingForm,
  AdminPanel, Closed) and one transition per button press or window close.

Decisions that shape the model:

- A tree view holds rows of strings. Delete and Update read the first two
  values of the selected rows whatever view is shown, exactly as the code does.
  On the stylist view, Delete therefore removes appointments whose name is a
  stylist's name and whose phone is that stylist's experience text.
- A valid table has positive ids, none above the high-water mark, that
  strictly increase along its rows. AUTOINCREMENT (line 32) hands ids out in
  increasing order and `SELECT *` (line 201) lists rows in rowid order, so the
  customer view always shows appointments in booking order.
- A selection is a sequence of row positions in the current view.
- A lookup by (name, phone) promises "some matching row", not which one.
- Prices are natural numbers, because every seeded price is a whole amount.
- The catalog tables' names are primary keys (lines 46 and 55), so the state
  invariant keeps them distinct. The views and the menu are built from the
  dictionaries; `Admin.ServiceViewMatches`, `Admin.StylistViewMatches` and
  `Booking.MenuMatchesDictionary` show that the table-order rows used here
  show exactly what those dictionaries hold.
- The label round-trip needs more than "the name has no `" - "`": a name
  ending in `" -"` is also cut short. `Booking.LabelSafe` is the exact
  condition (`Booking.SplitJoin` and `Booking.SplitJoinOnlyIf`), and `Booking.NameEndingInDashIsCut` shows the failing case.
- A failed customer login keeps the CustomerLogin screen. The code only shows
  an error dialog there; it does not go back to Welcome.

## Model

| member | source | states |
|---|---|---|
| Text.FirstSegment | SalonAppointmentSystem.py:476 | the result is a prefix of the label, holds no occurrence of the separator, and ends either at the end of the label or exactly where the first separator starts |
| Text.DecimalRoundTrip | SalonAppointmentSystem.py:391 | reading the printed digits of a price back gives the price |
| Text.PriceText | SalonAppointmentSystem.py:391 | a price prints as its decimal digits followed by ".0", with no leading zero, and the digits denote the price |
| Appointments.Insert | SalonAppointmentSystem.py:479-481 | one row is appended with the given fields; earlier rows are unchanged; the new id is above the high-water mark and carried by no earlier row; validity, including increasing ids, is kept |
| Appointments.DeleteKeys | SalonAppointmentSystem.py:214-220 | a row survives if and only if it was present and its (name, phone) is not a deleted pair |
| Appointments.DeleteWhere | SalonAppointmentSystem.py:219 | a row survives a single DELETE if and only if it was present and its pair differs from the given one; the id high-water mark is kept |
| Appointments.DeleteKeysCount | SalonAppointmentSystem.py:219 | every row keeps its multiplicity unless its pair is deleted, in which case none remains |
| Appointments.DeleteKeysAppend | SalonAppointmentSystem.py:219 | deletion distributes over concatenation, so the survivors keep their original order |
| Appointments.DeleteKeysNoMatch | SalonAppointmentSystem.py:219 | a pair no row carries leaves the rows exactly as they were |
| Appointments.DeleteKeysTwice | SalonAppointmentSystem.py:214-220 | two deletions equal one deletion of the union of their pairs, so order and repetition of the deletions do not matter |
| Appointments.DeleteKeysValid | SalonAppointmentSystem.py:32 | deletion keeps ids strictly increasing along the rows, hence unique, and within the high-water mark |
| Appointments.FindBy | SalonAppointmentSystem.py:237-238 | finds nothing exactly when no row carries the pair; otherwise returns a row of the table that carries it |
| Appointments.UpdateById | SalonAppointmentSystem.py:272-275 | the row with the id gets the new fields; every id and every other row is unchanged; the size and the high-water mark are kept |
| Appointments.UpdateOneRow | SalonAppointmentSystem.py:272-275 | on a valid table, updating the id of the row at position k replaces that position only, even when other rows share its pair; validity is kept |
| Appointments.UpdateMissing | SalonAppointmentSystem.py:272-275 | an id that no row carries leaves the table unchanged |
| Appointments.UpdateOverwrites | SalonAppointmentSystem.py:270-276 | saving twice on the same row leaves the second set of values |
| Appointments.UpdateThenFind | SalonAppointmentSystem.py:237-238 | after an update that gives a row a pair no other row carries, looking that pair up returns the updated row with its old id |
| Catalog.PopulateServices | SalonAppointmentSystem.py:65-76 | an empty services table becomes the five defaults; a non-empty one is left as it is |
| Catalog.PopulateStylists | SalonAppointmentSystem.py:78-88 | an empty stylists table becomes the four defaults; a non-empty one is left as it is |
| Catalog.PopulateIdempotent | SalonAppointmentSystem.py:50-61 | running the start-up seeding again changes nothing |
| Catalog.FetchServices | SalonAppointmentSystem.py:90-93 | the last row's name is a key mapped to its price, and the dictionary has no more entries than the table has rows |
| Catalog.FetchStylists | SalonAppointmentSystem.py:95-101 | the last row's name is a key mapped to its details, and the dictionary has no more entries than the table has rows |
| Catalog.FetchServicesKeys | SalonAppointmentSystem.py:90-93 | the services dictionary has a key exactly for each name in the table |
| Catalog.FetchServicesValue | SalonAppointmentSystem.py:90-93 | each name maps to the price of the last row that carries it |
| Catalog.FetchServicesExact | SalonAppointmentSystem.py:44-49 | with the name primary key in force, every row's price is what the dictionary gives for its name |
| Catalog.FetchStylistsKeys | SalonAppointmentSystem.py:95-101 | the stylists dictionary has a key exactly for each name in the table |
| Catalog.FetchStylistsValue | SalonAppointmentSystem.py:95-101 | each stylist maps to the details of the last row that carries the name |
| Catalog.SeededServices | SalonAppointmentSystem.py:69-76 | on an empty database the services dictionary is exactly Haircut 80, Manicure 150, Pedicure 150, Facial 1500, Massage 500 |
| Catalog.SeededStylists | SalonAppointmentSystem.py:82-88 | on an empty database the stylists dictionary is exactly the four default stylists with their details |
| Catalog.NonEmptyCatalogKept | SalonAppointmentSystem.py:68 | a catalog table that already has rows is read back without any default added |
| Booking.ServiceLabel | SalonAppointmentSystem.py:391 | a label starts with the service name, has the separator right after it, and ends with "$" and the printed price |
| Booking.ServiceMenu | SalonAppointmentSystem.py:390-391 | one label per service, in catalog order, each of the form name + " - $" + printed price |
| Booking.MenuMatchesDictionary | SalonAppointmentSystem.py:390-391 | with distinct names, each menu entry is the label of its name with the price the services dictionary gives |
| Booking.MenuListsEveryService | SalonAppointmentSystem.py:390-391 | every name in the services dictionary starts some menu entry |
| Booking.ServiceName | SalonAppointmentSystem.py:481 | the stored service name is a prefix of the label, no separator starts inside it, and it ends at the end of the label or exactly where the first separator starts |
| Booking.SplitJoin | SalonAppointmentSystem.py:481 | splitting name + " - " + anything gives back the name when the name is label-safe, however many separators follow |
| Booking.SplitJoinOnlyIf | SalonAppointmentSystem.py:481 | if splitting name + " - " + anything gives back the name, the name is label-safe; with SplitJoin, label-safety is the exact condition |
| Booking.LabelRoundTrip | SalonAppointmentSystem.py:391 | the label of a service with a label-safe name splits back to that name |
| Booking.NameEndingInDashIsCut | SalonAppointmentSystem.py:391 | the name "A -" contains no separator, yet its label splits to "A" |
| Booking.DefaultLabelsRoundTrip | SalonAppointmentSystem.py:69-75 | each of the five seeded services splits back to its own name |
| Booking.AllFilled | SalonAppointmentSystem.py:471 | the check passes if and only if none of the eight inputs is the empty string |
| Booking.Book | SalonAppointmentSystem.py:461-482 | booking succeeds if and only if all eight inputs are non-empty, and fails with ValidationError otherwise; success appends one row of seven fields under a fresh id, stores the first label segment as the service and leaves earlier rows unchanged; the payment method appears only on the receipt |
| Booking.PlaceholdersPass | SalonAppointmentSystem.py:471 | a form left on "STYLIST", "TIME" and "Payment Method" books and stores the placeholders |
| Booking.EmptyServiceNameStored | SalonAppointmentSystem.py:481 | a non-empty label starting with the separator books with an empty service name |
| Admin.CustomerRow | SalonAppointmentSystem.py:206 | a customer row shows seven values, starting with the name and the phone |
| Admin.CustomerRowRoundTrip | SalonAppointmentSystem.py:206 | the seven displayed values give back the appointment's fields; only the id is dropped |
| Admin.CustomerRows | SalonAppointmentSystem.py:191-206 | the customer view has one row per appointment, in table order |
| Admin.StylistRows | SalonAppointmentSystem.py:286-297 | the stylist view has one row per stylist: its name, experience, specialty and email |
| Admin.ServiceRows | SalonAppointmentSystem.py:299-310 | the service view has one row per service: its name and its printed price |
| Admin.ServiceViewMatches | SalonAppointmentSystem.py:299-310 | with distinct names, each service row shows a dictionary key with its price, every key is shown, and no name is shown twice |
| Admin.StylistViewMatches | SalonAppointmentSystem.py:286-297 | with distinct names, each stylist row shows a dictionary key with its details, every key is shown, and no name is shown twice |
| Admin.SelectedKeys | SalonAppointmentSystem.py:214-215 | each selected row contributes its first two values as a pair, in selection order |
| Admin.DeleteEach | SalonAppointmentSystem.py:214-220 | one DELETE per selected row, in order, equals deleting every row whose pair is among the selected ones |
| Admin.KeptPositions | SalonAppointmentSystem.py:214-216 | the unselected positions of the view, in increasing order, each exactly once |
| Admin.Unselected | SalonAppointmentSystem.py:216 | the view left after removing the selected items holds the rows at the unselected positions, in their order |
| Admin.UnselectedKeeps | SalonAppointmentSystem.py:214-216 | every row at an unselected position is still in the view after a Delete, and the view keeps at least two values per row |
| Admin.UnselectedDrops | SalonAppointmentSystem.py:214-216 | a selected row that occurs nowhere else in the view is gone from the view after a Delete |
| Admin.DeleteSelected | SalonAppointmentSystem.py:208-223 | fails with NoSelection if and only if nothing is selected; otherwise the table is the original with every row whose pair matches a selected row removed, order kept, so an appointment survives if and only if its pair matches no selected row; the new view is the rows at the unselected positions, in order; unselected rows stay displayed and a displayed row that occurs once and is selected disappears; validity is kept |
| Admin.UpdateSelected | SalonAppointmentSystem.py:226-242 | fails with NoSelection on an empty selection; otherwise uses the last selected row's pair and fails with NotFound exactly when no appointment carries it, or else returns an appointment carrying it |
| Admin.SaveChanges | SalonAppointmentSystem.py:270-281 | the row with the target's id takes the edited values, unchecked, and keeps its id; all other rows are unchanged; the view becomes the customer view of the new table |
| Admin.UpdateChangesOneRow | SalonAppointmentSystem.py:232-275 | Update then Save Changes replaces exactly the one row that was found, at its position |
| Admin.DeleteRemovesBoth | SalonAppointmentSystem.py:219 | with two bookings under one pair, deleting the first selected row empties the table |
| Admin.UpdateRewritesOne | SalonAppointmentSystem.py:272-275 | with two bookings under one pair, updating the first selected row rewrites exactly one of them |
| Admin.SurvivorsStayDisplayed | SalonAppointmentSystem.py:214-220 | after a Delete on the customer view, every appointment left in the table is still displayed |
| Admin.StaleRowDisplayed | SalonAppointmentSystem.py:216-219 | deleting one of two bookings under one pair leaves the other displayed, although it is gone from the table |
| Salon.Start | SalonAppointmentSystem.py:17-61 | start-up seeds each empty catalog table, keeps the stored appointments and shows Welcome; the catalog names stay distinct |
| Salon.Step | SalonAppointmentSystem.py:114-482 | every press keeps the invariant; the catalog never changes and the id high-water mark never decreases; only booking, Delete and Save Changes touch the table; the admin panel opens exactly for ("admin", "admin123") and the booking form exactly for two empty fields; the application closes exactly when the window is closed or the admin panel's Exit is pressed |
| Salon.AdminLoginGuard | SalonAppointmentSystem.py:149-152 | ("admin", "admin123") opens an empty admin panel; any other pair stays on AdminLogin with AuthError and nothing else changes |
| Salon.CustomerLoginGuard | SalonAppointmentSystem.py:344-347 | two empty fields open the booking form; any other pair stays on CustomerLogin with AuthError and nothing else changes |
| Salon.WelcomeNavigation | SalonAppointmentSystem.py:114-115 | from Welcome, "Book Appointment" leads to CustomerLogin and "Admin" to AdminLogin; closing the window closes; nothing else moves |
| Salon.ExitBookingReturns | SalonAppointmentSystem.py:439 | Exit on the booking form returns to Welcome with the table untouched |
| Salon.BookingStaysOnForm | SalonAppointmentSystem.py:494-495 | a successful booking stays on the booking form and shows its receipt; a rejected one changes nothing |
| Salon.BookAppendsOne | SalonAppointmentSystem.py:479-482 | a booking through the form appends exactly one row under a fresh id and keeps the earlier rows |
| Salon.ExitCloses | SalonAppointmentSystem.py:187-189 | Exit on the admin panel closes the application, which then ignores every press |
| Salon.CloseWindowCloses | SalonAppointmentSystem.py:504 | closing the main window ends the program from any screen, with no dialog and the table untouched |

## Left out

- Widget construction, layout, colours, `clear_screen` and the Treeview column
  set-up: presentation only. The screens are kept as a state, not as widgets.
- Modal dialogs are modelled as a `Notice` value returned by each step. They
  are not shown, and nothing waits for them.
- SQLite connection, cursor and commit plumbing. Tables are in-memory
  sequences, and every mutation is immediately visible.
- Which matching row `fetchone` returns: `Appointments.FindBy` promises only
  "some matching row".
- The receipt's f-string padding in `update_receipt_text`. The receipt is
  modelled as the six values it shows.
- Prices stored as SQL REAL: they are natural numbers here. Only their printed
  form ("80.0") is modelled.
- Which service label `tk.ACTIVE` returns when nothing was clicked. The
  selected label is an input of the booking form.
- The in-memory `self.appointments` list (lines 484-492). It is appended to
  but never read.
- The editing pop-up window is not part of the state. Save Changes carries the
  appointment the pop-up was opened on. Several pop-ups may be open, and a
  pop-up may outlive its row; an id that no longer exists updates nothing.
- The stylist option menu's hard-coded names (line 397). The chosen stylist is
  free text in the model, as it is in the stored row.
- `Salon.Step`: a selection that names rows outside the current view cannot
  arise from the tree view, so `Step` requires it away.
- Text.PriceText: does not model Python's float printing beyond whole
  amounts. A price of 1e16 or more prints in exponent form ("1e+16"), and
  whole amounts above 2^53 are rounded when stored as REAL.
- Appointments.Insert: does not model the 64-bit rowid limit. Once the
  largest id reaches 2^63 - 1, AUTOINCREMENT fails with SQLITE_FULL instead of
  issuing a fresh id.
- Closing the window is modelled as the `CloseWindow` event; the program ends
  without a dialog. Closing an editing pop-up only drops that pop-up, which
  is not part of the state.
