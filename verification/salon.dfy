/** The application as a whole: the screen it shows, the appointment table,
    the catalog read at start-up, and one transition per button press. */
module Salon {
  import opened Results
  import opened Appointments
  import Catalog
  import Booking
  import Admin

  const AdminUser := "admin"
  const AdminPassword := "admin123"

  /** The screens. The booking form carries the receipt it shows (none until
      a booking succeeds); the admin panel carries its tree view. */
  datatype Screen =
    | Welcome
    | CustomerLogin
    | AdminLogin
    | BookingForm(receipt: Option<Booking.Receipt>)
    | AdminPanel(view: seq<Admin.TreeRow>)
    | Closed

  /** The state: the screen, the appointment table, and the catalog as read
      into memory at start-up (never written afterwards). */
  datatype App = App(
    screen: Screen,
    appointments: Table,
    services: seq<Catalog.ServiceRow>,
    stylists: seq<Catalog.StylistRow>)

  /** The button presses, with what the widgets held at that moment. */
  datatype Event =
    | BookAppointmentButton                         // Welcome
    | AdminButton                                   // Welcome
    | CustomerLoginButton(user: string, password: string)
    | AdminLoginButton(user: string, password: string)
    | BookButton(form: Booking.Form)                // BookingForm
    | ExitBookingButton                             // BookingForm
    | CustomersButton | StylistsButton | ServicesButton
    | DeleteButton(sel: seq<nat>)
    | UpdateButton(sel: seq<nat>)
    | SaveChangesButton(target: Appointment, edited: Fields)
    | ExitAdminButton
    | CloseWindow                                   // any screen: the window manager's close

  /** The dialog a press brings up, if any. */
  datatype Notice =
    | Silent
    | ErrorDialog(error: Error)
    | SuccessDialog
    | EditDialog(target: Appointment)
    | ThankYouDialog

  datatype Outcome = Outcome(app: App, notice: Notice)

  /** What every reachable state satisfies. */
  predicate Invariant(app: App)
  {
    && Valid(app.appointments)
    && Catalog.UniqueServiceNames(app.services)
    && Catalog.UniqueStylistNames(app.stylists)
    && (app.screen.AdminPanel? ==> Admin.Wide(app.screen.view))
  }

  /** A selection names displayed rows only. */
  predicate Admissible(app: App, ev: Event)
  {
    app.screen.AdminPanel? && (ev.DeleteButton? || ev.UpdateButton?) ==>
      Admin.InView(app.screen.view, ev.sel)
  }

  /** Start-up: seed each empty catalog table, read the catalog, show Welcome.
      The appointment table is whatever the database file already holds;
      the catalog tables' primary keys keep their names distinct. */
  function Start(db: Table, services: seq<Catalog.ServiceRow>, stylists: seq<Catalog.StylistRow>): (app: App)
    requires Valid(db)
    requires Catalog.UniqueServiceNames(services) && Catalog.UniqueStylistNames(stylists)
    ensures Invariant(app) && app.screen == Welcome && app.appointments == db
    ensures |services| == 0 ==> app.services == Catalog.DefaultServices
    ensures |stylists| == 0 ==> app.stylists == Catalog.DefaultStylists
    ensures |services| > 0 ==> app.services == services
    ensures |stylists| > 0 ==> app.stylists == stylists
  {
    App(Welcome, db, Catalog.PopulateServices(services), Catalog.PopulateStylists(stylists))
  }

  /** One button press. A press that the current screen does not offer
      leaves everything as it is; closing the window ends the program from
      any screen. */
  function Step(app: App, ev: Event): (r: Outcome)
    requires Invariant(app) && Admissible(app, ev)
    ensures Invariant(r.app)
    ensures r.app.services == app.services && r.app.stylists == app.stylists
    ensures r.app.appointments.lastId >= app.appointments.lastId
    ensures r.app.appointments != app.appointments ==>
      (app.screen.BookingForm? && ev.BookButton?)
      || (app.screen.AdminPanel? && (ev.DeleteButton? || ev.SaveChangesButton?))
    ensures app.screen == AdminLogin && ev.AdminLoginButton? ==>
      && (r.app.screen == AdminPanel([]) <==> ev.user == AdminUser && ev.password == AdminPassword)
      && (r.app.screen != AdminPanel([]) ==> r == Outcome(app, ErrorDialog(AuthError)))
    ensures app.screen == CustomerLogin && ev.CustomerLoginButton? ==>
      && (r.app.screen == BookingForm(None) <==> ev.user == "" && ev.password == "")
      && (r.app.screen != BookingForm(None) ==> r == Outcome(app, ErrorDialog(AuthError)))
    ensures r.app.screen == Closed <==>
      app.screen == Closed || ev == CloseWindow || (app.screen.AdminPanel? && ev == ExitAdminButton)
  {
    if ev == CloseWindow then Outcome(app.(screen := Closed), Silent)
    else
    match app.screen
    case Welcome =>
      if ev == BookAppointmentButton then Outcome(app.(screen := CustomerLogin), Silent)
      else if ev == AdminButton then Outcome(app.(screen := AdminLogin), Silent)
      else Outcome(app, Silent)
    case CustomerLogin =>
      if !ev.CustomerLoginButton? then Outcome(app, Silent)
      else if ev.user == "" && ev.password == "" then Outcome(app.(screen := BookingForm(None)), Silent)
      else Outcome(app, ErrorDialog(AuthError))
    case AdminLogin =>
      if !ev.AdminLoginButton? then Outcome(app, Silent)
      else if ev.user == AdminUser && ev.password == AdminPassword then Outcome(app.(screen := AdminPanel([])), Silent)
      else Outcome(app, ErrorDialog(AuthError))
    case BookingForm(_) =>
      if ev == ExitBookingButton then Outcome(app.(screen := Welcome), Silent)
      else if !ev.BookButton? then Outcome(app, Silent)
      else
        (match Booking.Book(app.appointments, ev.form)
         case Err(e) => Outcome(app, ErrorDialog(e))
         case Ok(booked) =>
           Outcome(app.(screen := BookingForm(Some(booked.receipt)), appointments := booked.table), Silent))
    case AdminPanel(view) =>
      (match ev
      case CustomersButton =>
        Outcome(app.(screen := AdminPanel(Admin.CustomerRows(app.appointments.rows))), Silent)
      case StylistsButton =>
        Outcome(app.(screen := AdminPanel(Admin.StylistRows(app.stylists))), Silent)
      case ServicesButton =>
        Outcome(app.(screen := AdminPanel(Admin.ServiceRows(app.services))), Silent)
      case DeleteButton(sel) =>
        (match Admin.DeleteSelected(app.appointments, view, sel)
         case Err(e) => Outcome(app, ErrorDialog(e))
         case Ok(d) => Outcome(app.(screen := AdminPanel(d.view), appointments := d.table), SuccessDialog))
      case UpdateButton(sel) =>
        (match Admin.UpdateSelected(app.appointments, view, sel)
         case Err(e) => Outcome(app, ErrorDialog(e))
         case Ok(a) => Outcome(app, EditDialog(a)))
      case SaveChangesButton(target, edited) =>
        var saved := Admin.SaveChanges(app.appointments, target, edited);
        Outcome(app.(screen := AdminPanel(saved.view), appointments := saved.table), SuccessDialog)
      case ExitAdminButton => Outcome(app.(screen := Closed), ThankYouDialog)
      case _ => Outcome(app, Silent))
    case Closed => Outcome(app, Silent)
  }

  /** From Welcome the two buttons lead to the two login screens; nothing else moves. */
  lemma WelcomeNavigation(app: App, ev: Event)
    requires Invariant(app) && app.screen == Welcome
    ensures ev == BookAppointmentButton ==> Step(app, ev).app.screen == CustomerLogin
    ensures ev == AdminButton ==> Step(app, ev).app.screen == AdminLogin
    ensures ev == CloseWindow ==> Step(app, ev).app.screen == Closed
    ensures ev != BookAppointmentButton && ev != AdminButton && ev != CloseWindow ==> Step(app, ev) == Outcome(app, Silent)
  {
  }

  /** Only the literal pair ("admin", "admin123") opens the admin panel;
      any other pair keeps the login screen and reports the failure. */
  lemma AdminLoginGuard(app: App, user: string, password: string)
    requires Invariant(app) && app.screen == AdminLogin
    ensures user == AdminUser && password == AdminPassword ==>
      Step(app, AdminLoginButton(user, password)) == Outcome(app.(screen := AdminPanel([])), Silent)
    ensures !(user == AdminUser && password == AdminPassword) ==>
      Step(app, AdminLoginButton(user, password)) == Outcome(app, ErrorDialog(AuthError))
  {
  }

  /** Only two empty fields open the booking form; anything typed in either
      keeps the login screen and reports the failure. */
  lemma CustomerLoginGuard(app: App, user: string, password: string)
    requires Invariant(app) && app.screen == CustomerLogin
    ensures user == "" && password == "" ==>
      Step(app, CustomerLoginButton(user, password)) == Outcome(app.(screen := BookingForm(None)), Silent)
    ensures !(user == "" && password == "") ==>
      Step(app, CustomerLoginButton(user, password)) == Outcome(app, ErrorDialog(AuthError))
  {
  }

  /** Exit on the booking form returns to Welcome, table untouched. */
  lemma ExitBookingReturns(app: App)
    requires Invariant(app) && app.screen.BookingForm?
    ensures Step(app, ExitBookingButton) == Outcome(app.(screen := Welcome), Silent)
  {
  }

  /** A successful booking stays on the form and shows its receipt; a
      rejected one changes nothing at all. */
  lemma BookingStaysOnForm(app: App, f: Booking.Form)
    requires Invariant(app) && app.screen.BookingForm?
    ensures Booking.AllFilled(f) ==>
      Step(app, BookButton(f)).app.screen == BookingForm(Some(Booking.Book(app.appointments, f).value.receipt))
    ensures !Booking.AllFilled(f) ==> Step(app, BookButton(f)) == Outcome(app, ErrorDialog(ValidationError))
  {
  }

  /** A successful booking through the form appends exactly one row under a
      fresh id; the rows already booked are unchanged. */
  lemma BookAppendsOne(app: App, f: Booking.Form)
    requires Invariant(app) && app.screen.BookingForm? && Booking.AllFilled(f)
    ensures var rows := Step(app, BookButton(f)).app.appointments.rows;
      && |rows| == |app.appointments.rows| + 1
      && rows[..|app.appointments.rows|] == app.appointments.rows
      && !HasId(app.appointments.rows, rows[|app.appointments.rows|].id)
  {
  }

  /** Exit on the admin panel closes the application, which then ignores
      every press. */
  lemma ExitCloses(app: App, ev: Event)
    requires Invariant(app) && app.screen.AdminPanel?
    ensures Step(app, ExitAdminButton) == Outcome(app.(screen := Closed), ThankYouDialog)
    ensures Step(app.(screen := Closed), ev) == Outcome(app.(screen := Closed), Silent)
  {
  }

  /** Closing the window ends the program from any screen, without a
      dialog and without touching the table. */
  lemma CloseWindowCloses(app: App)
    requires Invariant(app)
    ensures Step(app, CloseWindow) == Outcome(app.(screen := Closed), Silent)
  {
  }
}
