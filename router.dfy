/** The single-page router (router/index.js): the route table, the
    navigation guard run before every navigation, and the scroll decision
    made after it. */
module Router {
  import opened Common
  import AuthClient

  /** A route's `meta`; a missing flag is false. */
  datatype RouteMeta = RouteMeta(requiresAuth: bool, guest: bool)

  const NO_META := RouteMeta(false, false)

  datatype Route = Route(path: string, name: string, meta: RouteMeta)

  const PRODUCT_LIST := "ProductList"
  const LOGIN := "Login"

  /** The route table, in declaration order. */
  const ROUTES: seq<Route> := [
    Route("/", PRODUCT_LIST, NO_META),
    Route("/login", LOGIN, RouteMeta(false, true)),
    Route("/signup", "Signup", RouteMeta(false, true)),
    Route("/products/new", "ProductNew", RouteMeta(true, false)),
    Route("/products/:id", "ProductDetail", NO_META),
    Route("/products/:id/edit", "ProductEdit", RouteMeta(true, false)),
    Route("/wishlist", "Wishlist", RouteMeta(true, false)),
    Route("/qna", "QnaList", NO_META),
    Route("/qna/new", "QnaNew", RouteMeta(true, false)),
    Route("/qna/:id", "QnaDetail", NO_META)
  ]

  /** A resolved navigation target: the matched route's meta, its full path
      (with query and hash) and its hash. */
  datatype Target = Target(name: string, fullPath: string, hash: string, meta: RouteMeta)

  /** The call the guard makes to `next`. */
  datatype NavDecision =
    | Proceed                             // next()
    | RedirectToLogin(redirect: string)   // next({ name: 'Login', query: { redirect } })
    | RedirectToProductList               // next({ name: 'ProductList' })

  /** `router.beforeEach`: the login state is read from the token store. */
  function BeforeEach(to: Target, storage: AuthClient.Storage): NavDecision {
    var isLoggedIn := AuthClient.IsLoggedIn(storage);
    if to.meta.requiresAuth && !isLoggedIn then RedirectToLogin(to.fullPath)
    else if to.meta.guest && isLoggedIn then RedirectToProductList
    else Proceed
  }

  /** A position the browser saved for back/forward navigation. */
  datatype Position = Position(left: int, top: int)

  datatype ScrollTarget =
    | SavedPosition(position: Position)   // savedPosition
    | ToElement(el: string, smooth: bool) // { el: to.hash, behavior: 'smooth' }
    | ToTop(top: int, smooth: bool)       // { top: 0, behavior: 'smooth' }

  /** `scrollBehavior(to, from, savedPosition)`: a saved position wins,
      then the hash anchor, then the top of the page. */
  function ScrollBehavior(to: Target, savedPosition: Option<Position>): (r: ScrollTarget)
    ensures r.SavedPosition? <==> savedPosition.Some?
    ensures r.SavedPosition? ==> r.position == savedPosition.value
    ensures r.ToElement? <==> savedPosition.None? && to.hash != ""
    ensures r.ToElement? ==> r == ToElement(to.hash, true)
    ensures r.ToTop? ==> r == ToTop(0, true) && savedPosition.None? && to.hash == ""
  {
    if savedPosition.Some? then SavedPosition(savedPosition.value)
    else if to.hash != "" then ToElement(to.hash, true)
    else ToTop(0, true)
  }

  /** The target a named route of the table resolves to. */
  function TargetOf(r: Route, fullPath: string, hash: string): Target {
    Target(r.name, fullPath, hash, r.meta)
  }

  // ---------------------------------------------------------------------
  // Properties.

  /** Each outcome of the guard, in both directions: the login redirect
      exactly for a protected target while logged out, carrying the
      target's full path; the list redirect exactly for a guest-only target
      while logged in (and not protected); otherwise navigation proceeds. */
  lemma BeforeEachSpec(to: Target, storage: AuthClient.Storage)
    ensures var d := BeforeEach(to, storage);
      && (d.RedirectToLogin? <==> to.meta.requiresAuth && !AuthClient.IsLoggedIn(storage))
      && (d.RedirectToLogin? ==> d.redirect == to.fullPath)
      && (d == RedirectToProductList <==>
            to.meta.guest && AuthClient.IsLoggedIn(storage) && !(to.meta.requiresAuth && !AuthClient.IsLoggedIn(storage)))
      && (d == Proceed <==>
            !(to.meta.requiresAuth && !AuthClient.IsLoggedIn(storage)) && !(to.meta.guest && AuthClient.IsLoggedIn(storage)))
  {
  }

  /** No route of the table is both protected and guest-only, so on the
      table the order of the two checks does not matter, and route names
      are unique. */
  lemma RoutesWellFormed()
    ensures forall i :: 0 <= i < |ROUTES| ==> !(ROUTES[i].meta.requiresAuth && ROUTES[i].meta.guest)
    ensures forall i, j :: 0 <= i < j < |ROUTES| ==> ROUTES[i].name != ROUTES[j].name
  {
  }

  /** The guard never redirects twice: whichever redirect it picks, the
      navigation to the redirect's route is allowed to proceed in the same
      login state. */
  lemma NoRedirectLoop(to: Target, storage: AuthClient.Storage, fullPath: string, hash: string)
    ensures BeforeEach(to, storage).RedirectToLogin? ==>
      BeforeEach(TargetOf(ROUTES[1], fullPath, hash), storage) == Proceed
    ensures BeforeEach(to, storage) == RedirectToProductList ==>
      BeforeEach(TargetOf(ROUTES[0], fullPath, hash), storage) == Proceed
    ensures ROUTES[1].name == LOGIN && ROUTES[0].name == PRODUCT_LIST
  {
  }

  /** After logout every protected route of the table sends the user to the
      login page with the way back recorded, and the login and sign-up pages
      open. */
  lemma ProtectedAfterLogout(storage: AuthClient.Storage, i: nat, fullPath: string, hash: string)
    requires i < |ROUTES|
    ensures var d := BeforeEach(TargetOf(ROUTES[i], fullPath, hash), AuthClient.Cleared(storage));
      && (ROUTES[i].meta.requiresAuth ==> d == RedirectToLogin(fullPath))
      && (!ROUTES[i].meta.requiresAuth ==> d == Proceed)
  {
    AuthClient.ClearedEffect(storage);
  }

  /** After tokens are saved with a non-empty access token, guest-only routes
      send the user to the product list and every other route opens. */
  lemma GuestPagesAfterLogin(storage: AuthClient.Storage, accessToken: string, refreshToken: Option<string>,
                             i: nat, fullPath: string, hash: string)
    requires i < |ROUTES| && accessToken != ""
    ensures var d := BeforeEach(TargetOf(ROUTES[i], fullPath, hash),
                                AuthClient.SavedTokens(storage, accessToken, refreshToken));
      && (ROUTES[i].meta.guest ==> d == RedirectToProductList)
      && (!ROUTES[i].meta.guest ==> d == Proceed)
  {
    AuthClient.SavedTokensEffect(storage, accessToken, refreshToken);
  }
}
