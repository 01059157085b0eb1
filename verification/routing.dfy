/** The application shell (App.tsx): which screen each path shows to the
    signed-in user, the profile-settings modal, and the change-password
    handler with its validation order. The user is reduced to their role,
    `None` standing for "nobody signed in". */
module Routing {
  import opened Domain

  // ---------------------------------------------------------------------
  // Routes
  // ---------------------------------------------------------------------

  /** What a route renders: a replacing redirect, the login page, or a
      role's portal (layout plus dashboard). */
  datatype Screen = Navigate(to: string) | LoginPage | Portal(role: Role)

  function PortalPath(role: Role): string {
    match role
    case Admin => "/admin"
    case Faculty => "/faculty"
    case Student => "/student"
  }

  /** The element of the root path. */
  function RootRedirect(viewer: Option<Role>): (s: Screen)
    ensures viewer.None? <==> s == Navigate("/login")
    ensures viewer.Some? ==> s == Navigate(PortalPath(viewer.value))
  {
    match viewer
    case None => Navigate("/login")
    case Some(Admin) => Navigate("/admin")
    case Some(Faculty) => Navigate("/faculty")
    case Some(Student) => Navigate("/student")
  }

  /** The guard around a portal: to the login page when nobody is signed
      in, to the root when the role differs, else the portal. */
  function RequireRole(viewer: Option<Role>, role: Role): (s: Screen)
    ensures s == Portal(role) <==> viewer == Some(role)
    ensures s.Portal? ==> s.role == role
    ensures viewer.None? ==> s == Navigate("/login")
    ensures viewer.Some? && viewer.value != role ==> s == Navigate("/")
  {
    if viewer.None? then Navigate("/login")
    else if viewer.value != role then Navigate("/")
    else Portal(role)
  }

  /** The element the route table gives a path. A signed-in user on the
      login path, and every path outside the table, is sent to the root. */
  function Route(path: string, viewer: Option<Role>): (s: Screen)
    ensures path == "/login" && viewer.None? ==> s == LoginPage
    ensures path == "/login" && viewer.Some? ==> s == Navigate("/")
    ensures path !in {"/login", "/", "/admin", "/faculty", "/student"} ==> s == Navigate("/")
  {
    if path == "/login" then (if viewer.None? then LoginPage else Navigate("/"))
    else if path == "/" then RootRedirect(viewer)
    else if path == "/admin" then RequireRole(viewer, Admin)
    else if path == "/faculty" then RequireRole(viewer, Faculty)
    else if path == "/student" then RequireRole(viewer, Student)
    else Navigate("/")
  }

  /** The screen after following at most `hops` redirects from `path`. */
  function Follow(path: string, viewer: Option<Role>, hops: nat): Screen
    decreases hops
  {
    var s := Route(path, viewer);
    if s.Navigate? && hops > 0 then Follow(s.to, viewer, hops - 1) else s
  }

  /** The screen a viewer settles on: the login page when nobody is signed
      in, their own portal otherwise. */
  function Home(viewer: Option<Role>): Screen {
    if viewer.None? then LoginPage else Portal(viewer.value)
  }

  /** A portal is shown only to its own role, and only on its own path. */
  lemma PortalOnlyForOwnRole(path: string, viewer: Option<Role>, role: Role)
    requires Route(path, viewer) == Portal(role)
    ensures viewer == Some(role) && path == PortalPath(role)
  {
  }

  /** The login page is shown only to nobody, and only on its own path. */
  lemma LoginOnlyWhenSignedOut(path: string, viewer: Option<Role>)
    requires Route(path, viewer) == LoginPage
    ensures viewer.None? && path == "/login"
  {
  }

  /** Two redirects are enough from any path, and there is no redirect
      loop: every path ends on the viewer's home screen. */
  lemma {:induction false} NavigationSettles(path: string, viewer: Option<Role>)
    ensures Follow(path, viewer, 2) == Home(viewer)
  {
    var s := Route(path, viewer);
    if s.Navigate? {
      var t := Route(s.to, viewer);
      assert s.to in {"/", "/login"} || (viewer.Some? && s.to == PortalPath(viewer.value));
      if t.Navigate? {
        assert t.to == "/login" || (viewer.Some? && t.to == PortalPath(viewer.value));
        assert Route(t.to, viewer) == Home(viewer);
      }
    }
  }

  /** Each home screen is a fixed point: no redirect leaves it. */
  lemma HomeIsStable(viewer: Option<Role>)
    ensures viewer.None? ==> Route("/login", viewer) == Home(viewer)
    ensures viewer.Some? ==> Route(PortalPath(viewer.value), viewer) == Home(viewer)
  {
  }

  // ---------------------------------------------------------------------
  // Settings modal and password change
  // ---------------------------------------------------------------------

  /** Whether the settings modal is part of the page at all: for a signed-in
      user who is not a student. */
  function SettingsModalMounted(viewer: Option<Role>): (r: bool)
    ensures r <==> viewer == Some(Admin) || viewer == Some(Faculty)
  {
    viewer.Some? && viewer.value != Student
  }

  datatype PasswordForm = PasswordForm(current: string, newPassword: string, confirm: string)

  const EmptyForm := PasswordForm("", "", "")

  /** The modal's state: open or not, the form, and whether a change is in
      flight. */
  datatype Settings = Settings(open: bool, form: PasswordForm, loading: bool)

  /** The alert the handler raises. */
  datatype Notice = Mismatch | TooShort | Changed | Failed(message: string)

  function AlertText(n: Notice): string {
    match n
    case Mismatch => "New passwords do not match."
    case TooShort => "Password must be at least 6 characters."
    case Changed => "Password changed successfully."
    case Failed(m) => "Error: " + m
  }

  const MinPasswordLength := 6

  /** The handler's result: the new modal state, the alert shown, and the
      `(current, new)` pair sent to the password service, if any. */
  datatype ChangeOutcome = ChangeOutcome(settings: Settings, notice: Notice, request: Option<(string, string)>)

  /** `handleChangePassword`. The service's answer is a parameter: `None`
      for success, `Some(message)` for the error it throws. */
  function HandleChangePassword(s: Settings, serviceError: Option<string>): (r: ChangeOutcome)
    ensures r.notice == Mismatch <==> s.form.newPassword != s.form.confirm
    ensures r.notice == TooShort <==> s.form.newPassword == s.form.confirm && |s.form.newPassword| < MinPasswordLength
    ensures r.request.Some? <==> s.form.newPassword == s.form.confirm && |s.form.newPassword| >= MinPasswordLength
    ensures r.request.Some? ==> r.request.value == (s.form.current, s.form.newPassword)
    ensures r.request.None? ==> r.settings == s
    ensures r.request.Some? ==> !r.settings.loading
    ensures r.notice == Changed <==> r.request.Some? && serviceError.None?
    ensures r.notice == Changed ==> !r.settings.open && r.settings.form == EmptyForm
    ensures r.request.Some? && serviceError.Some? ==>
      r.notice == Failed(serviceError.value) && r.settings == s.(loading := false)
  {
    if s.form.newPassword != s.form.confirm then ChangeOutcome(s, Mismatch, None)
    else if |s.form.newPassword| < MinPasswordLength then ChangeOutcome(s, TooShort, None)
    else
      var request := Some((s.form.current, s.form.newPassword));
      match serviceError
      case None => ChangeOutcome(Settings(false, EmptyForm, false), Changed, request)
      case Some(m) => ChangeOutcome(s.(loading := false), Failed(m), request)
  }

  /** The "Update Password" button's `disabled`. It blocks a second
      submission while a change is in flight and a form without a current
      password, and it never blocks a form the handler accepts. */
  function SubmitDisabled(s: Settings): (r: bool)
    ensures s.loading ==> r
    ensures s.form.current == "" ==> r
    ensures s.form.newPassword == "" ==> r
    ensures HandleChangePassword(s, None).request.Some? && s.form.current != "" && !s.loading ==> !r
  {
    s.form.current == "" || s.form.newPassword == "" || s.loading
  }

  /** The button ignores the confirmation field: what it lets through is
      left to the handler's checks. */
  lemma SubmitIgnoresConfirmation(s: Settings, confirm: string)
    ensures SubmitDisabled(s) == SubmitDisabled(s.(form := s.form.(confirm := confirm)))
  {
  }

  /** A mismatch is reported even when the new password is also too short:
      the equality check runs first. */
  lemma MismatchReportedFirst(s: Settings, serviceError: Option<string>)
    requires s.form.newPassword != s.form.confirm && |s.form.newPassword| < MinPasswordLength
    ensures HandleChangePassword(s, serviceError).notice == Mismatch
    ensures HandleChangePassword(s, serviceError).notice != TooShort
  {
  }

  /** The button does not look at the confirmation or the length: with a
      current and a new password typed and nothing in flight, it is enabled
      even for a form the handler then rejects, as a mismatch or as too
      short, without calling the service. */
  lemma EnabledButRejected(s: Settings, serviceError: Option<string>)
    requires s.form.current != "" && s.form.newPassword != "" && !s.loading
    requires HandleChangePassword(s, serviceError).request.None?
    ensures !SubmitDisabled(s)
    ensures HandleChangePassword(s, serviceError).notice in {Mismatch, TooShort}
  {
  }
}
