/** The router: which screen each path shows for the auth state, and the
    guard around the signed-in screens. */
module Routing {

  /** The paths the router knows; `ChatPath` is `/chat/:matchId`. */
  datatype Path = AuthPath | ProfilePath | MatchPath | MatchesPath | ChatListPath | ChatPath(matchId: string)
                | RootPath | OtherPath

  /** What `useAuth` reports: still loading, signed in, profile found. */
  datatype AuthState = AuthState(loading: bool, signedIn: bool, hasProfile: bool)

  /** What the guard renders. */
  datatype Guard = GuardSpinner | GuardRedirect(to: Path) | RenderChildren

  /** `ProtectedRoute`, at the browser's current path. */
  function ProtectedRoute(auth: AuthState, at: Path): (g: Guard)
    ensures auth.loading <==> g == GuardSpinner
    ensures g == GuardRedirect(AuthPath) <==> !auth.loading && !auth.signedIn
    ensures g == GuardRedirect(ProfilePath) <==> !auth.loading && auth.signedIn && !auth.hasProfile && at != ProfilePath
    ensures g == RenderChildren <==> !auth.loading && auth.signedIn && (auth.hasProfile || at == ProfilePath)
    ensures g.GuardRedirect? ==> g.to == AuthPath || g.to == ProfilePath
  {
    if auth.loading then GuardSpinner
    else if !auth.signedIn then GuardRedirect(AuthPath)
    else if !auth.hasProfile && at != ProfilePath then GuardRedirect(ProfilePath)
    else RenderChildren
  }

  datatype Page = AuthPage | ProfilePage | MatchPage | MatchesPage | ChatsListPage | ChatPage(matchId: string) | NotFound

  /** What the router shows: a spinner, a redirect or a page. */
  datatype Screen = Spinner | Redirect(to: Path) | Show(page: Page)

  /** The page a protected path holds. */
  function ProtectedPage(p: Path): Page
    requires p.ProfilePath? || p.MatchPath? || p.MatchesPath? || p.ChatListPath? || p.ChatPath?
  {
    match p
    case ProfilePath => ProfilePage
    case MatchPath => MatchPage
    case MatchesPath => MatchesPage
    case ChatListPath => ChatsListPage
    case ChatPath(id) => ChatPage(id)
  }

  /** Where a signed-in user is sent from `/` and `/auth`. */
  function Home(auth: AuthState): Path
  {
    if auth.hasProfile then MatchPath else ProfilePath
  }

  /** `AppRoutes`: the spinner while loading, then the route table. */
  function Route(auth: AuthState, p: Path): (s: Screen)
    ensures auth.loading <==> s == Spinner
    ensures p == RootPath && !auth.loading ==>
      s == Redirect(if auth.signedIn then (if auth.hasProfile then MatchPath else ProfilePath) else AuthPath)
    ensures p == AuthPath && !auth.loading ==>
      s == (if auth.signedIn then Redirect(if auth.hasProfile then MatchPath else ProfilePath) else Show(AuthPage))
    ensures p == OtherPath && !auth.loading ==> s == Show(NotFound)
  {
    if auth.loading then Spinner
    else match p
      case AuthPath => if auth.signedIn then Redirect(Home(auth)) else Show(AuthPage)
      case RootPath => Redirect(if auth.signedIn then Home(auth) else AuthPath)
      case OtherPath => Show(NotFound)
      case _ =>
        match ProtectedRoute(auth, p)
        case GuardSpinner => Spinner
        case GuardRedirect(to) => Redirect(to)
        case RenderChildren => Show(ProtectedPage(p))
  }

  /** A signed-in screen is shown only to a signed-in user, and only with a
      profile unless it is the profile screen. */
  lemma ProtectedPagesNeedProfile(auth: AuthState, p: Path)
    requires Route(auth, p).Show? && Route(auth, p).page != AuthPage && Route(auth, p).page != NotFound
    ensures auth.signedIn
    ensures auth.hasProfile || Route(auth, p).page == ProfilePage
  {
  }

  /** The router settles after at most one redirect: the target of any
      redirect shows a page. */
  lemma RedirectsSettle(auth: AuthState, p: Path)
    requires Route(auth, p).Redirect?
    ensures Route(auth, Route(auth, p).to).Show?
  {
  }

  /** The guard's own spinner is never reached through the router: the
      router shows its spinner first while loading. */
  lemma GuardSpinnerUnreached(auth: AuthState, p: Path)
    requires !auth.loading
    ensures Route(auth, p) != Spinner
  {
  }
}
