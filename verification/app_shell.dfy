/** The single-page shell (frontend/src/App.tsx) and its navigation bar
    (frontend/src/components/Navbar.tsx): which section is active, whether
    the administrator is signed in, what is rendered and which buttons the
    bar offers.
 */
module AppShell {

  const Camera: string := "camera"
  const LoginSection: string := "login"
  const Employees: string := "employees"
  const AttendanceSection: string := "attendance"
  const Logout: string := "logout"

  /** The shell's state: `activeSection` and `isAuthenticated`. */
  datatype Shell = Shell(section: string, authenticated: bool)

  const InitialShell: Shell := Shell(Camera, false)

  predicate Protected(section: string) {
    section == Employees || section == AttendanceSection
  }

  /** `handleSectionChange(section)`. */
  function ChangeSection(s: Shell, section: string): (s': Shell)
    ensures section == Logout ==> s' == Shell(Camera, false)
    ensures section != Logout && Protected(section) && !s.authenticated ==> s' == Shell(LoginSection, false)
    ensures section != Logout && !(Protected(section) && !s.authenticated) ==> s' == s.(section := section)
    ensures s'.authenticated ==> s.authenticated
  {
    if section == Logout then Shell(Camera, false)
    else if Protected(section) && !s.authenticated then s.(section := LoginSection)
    else s.(section := section)
  }

  /** `handleLoginSuccess()`. */
  function LoginSucceeded(s: Shell): (s': Shell)
    ensures s' == Shell(Employees, true)
    ensures Render(s') == EmployeesPage
    ensures LogoutVisible(s') && NavItems[1] !in VisibleItems(s'.authenticated)
  {
    Shell(Employees, true)
  }

  /** The pages the shell can show. */
  datatype Page = CameraPage | LoginPage | EmployeesPage | AttendancePage

  /** `renderActiveSection()`: protected sections show the login form to a
      visitor, and an unknown section shows the camera. */
  function Render(s: Shell): (p: Page)
    ensures p == EmployeesPage ==> s.authenticated && s.section == Employees
    ensures p == AttendancePage ==> s.authenticated && s.section == AttendanceSection
    ensures p == LoginPage <==> s.section == LoginSection || (Protected(s.section) && !s.authenticated)
    ensures p == CameraPage <==> s.section != LoginSection && !Protected(s.section)
  {
    if s.section == LoginSection then LoginPage
    else if s.section == Employees then (if s.authenticated then EmployeesPage else LoginPage)
    else if s.section == AttendanceSection then (if s.authenticated then AttendancePage else LoginPage)
    else CameraPage
  }

  /** The states the shell can reach keep a visitor out of the protected
      sections altogether. */
  ghost predicate Consistent(s: Shell) {
    Protected(s.section) ==> s.authenticated
  }

  lemma {:induction false} ConsistentPreserved(s: Shell, section: string)
    requires Consistent(s)
    ensures Consistent(ChangeSection(s, section)) && Consistent(LoginSucceeded(s))
  {
  }

  /** From the start, any sequence of section requests and sign-ins leaves
      the shell consistent. */
  datatype Event = Navigate(section: string) | SignedIn

  function Run(s: Shell, events: seq<Event>): (s': Shell)
    decreases |events|
  {
    if |events| == 0 then s
    else
      var next := match events[0]
                  case Navigate(section) => ChangeSection(s, section)
                  case SignedIn => LoginSucceeded(s);
      Run(next, events[1..])
  }

  lemma {:induction false} RunConsistent(s: Shell, events: seq<Event>)
    requires Consistent(s)
    ensures Consistent(Run(s, events))
    decreases |events|
  {
    if |events| > 0 {
      var next := match events[0]
                  case Navigate(section) => ChangeSection(s, section)
                  case SignedIn => LoginSucceeded(s);
      ConsistentPreserved(s, if events[0].Navigate? then events[0].section else Camera);
      RunConsistent(next, events[1..]);
    }
  }

  /** An entry of `navItems`. */
  datatype NavItem = NavItem(id: string, caption: string, requiresAuth: bool, hideWhenAuth: bool)

  const NavItems: seq<NavItem> := [
    NavItem(Camera, "Cámara en tiempo real", false, false),
    NavItem(LoginSection, "Login", false, true),
    NavItem(Employees, "Gestión de empleados", true, false),
    NavItem(AttendanceSection, "Asistencia", true, false)
  ]

  /** The test inside `filteredItems`. */
  predicate Shown(item: NavItem, authenticated: bool) {
    !(item.hideWhenAuth && authenticated) && !(item.requiresAuth && !authenticated)
  }

  function VisibleFrom(items: seq<NavItem>, authenticated: bool): (r: seq<NavItem>)
    ensures forall x :: x in r <==> x in items && !(x.hideWhenAuth && authenticated) && !(x.requiresAuth && !authenticated)
    decreases |items|
  {
    if |items| == 0 then []
    else
      var item := items[0];
      assert forall x :: x in items <==> x == item || x in items[1..];
      (if Shown(item, authenticated) then [item] else [])
        + VisibleFrom(items[1..], authenticated)
  }

  lemma {:induction false} VisibleStep(items: seq<NavItem>, authenticated: bool)
    requires |items| > 0
    ensures VisibleFrom(items, authenticated) ==
            (if Shown(items[0], authenticated) then [items[0]] else []) + VisibleFrom(items[1..], authenticated)
  {
  }

  /** `filteredItems`. */
  function VisibleItems(authenticated: bool): (r: seq<NavItem>)
    ensures authenticated ==> r == [NavItems[0], NavItems[2], NavItems[3]]
    ensures !authenticated ==> r == [NavItems[0], NavItems[1]]
  {
    var a := authenticated;
    var n0, n1, n2, n3 := NavItems[0], NavItems[1], NavItems[2], NavItems[3];
    assert NavItems[1..][1..] == NavItems[2..];
    assert NavItems[2..][1..] == NavItems[3..];
    assert NavItems[3..][1..] == [];
    VisibleStep(NavItems[3..], a);
    VisibleStep(NavItems[2..], a);
    VisibleStep(NavItems[1..], a);
    VisibleStep(NavItems, a);
    assert Shown(n0, a) && Shown(n1, a) == !a && Shown(n2, a) == a && Shown(n3, a) == a;
    VisibleFrom(NavItems, a)
  }

  /** The logout button is shown exactly to a signed-in administrator. */
  function LogoutVisible(s: Shell): (shown: bool)
    ensures shown <==> s.authenticated
    ensures shown <==> NavItems[1] !in VisibleItems(s.authenticated)
    ensures shown <==> NavItems[2] in VisibleItems(s.authenticated) && NavItems[3] in VisibleItems(s.authenticated)
  {
    s.authenticated
  }

  /** Clicking any button the bar shows, from a consistent state, renders
      the page the button names; the logout button signs out to the
      camera. */
  lemma {:induction false} NavigationLandsOnItem(s: Shell, item: NavItem)
    requires item in VisibleItems(s.authenticated)
    ensures Render(ChangeSection(s, item.id)) ==
              (if item.id == Camera then CameraPage
               else if item.id == LoginSection then LoginPage
               else if item.id == Employees then EmployeesPage
               else AttendancePage)
    ensures LogoutVisible(s) ==> Render(ChangeSection(s, Logout)) == CameraPage &&
                                 !ChangeSection(s, Logout).authenticated
  {
  }
}
