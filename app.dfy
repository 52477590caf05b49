/** The application controller (`App`): session, catalog loading, category
    selection, the my-list / history overlays' data, and screen routing. */
module Application {
  import opened Js
  import opened Catalog
  import opened Firestore
  import opened Store
  import Thumbnail

  /** The screens the controller renders, in routing order. */
  datatype Screen = LoadingScreen | LoginScreen | IntroScreen | MainScreen

  /** The messages the sign-in handler can show. */
  datatype AuthError =
    | DomainMismatch(email: Option<string>)
    | ApiKeyInvalid
    | UnauthorizedDomain
    | PopupClosed
    | UnknownSignInError

  /** What the sign-in popup produced: a user, or a provider error code. */
  datatype SignInResult = SignedIn(user: User) | SignInFailed(code: string)

  /** A non-empty `error` member of a JSON payload. */
  type Message = s: string | s != "" witness "error"

  /** The JSON body of the catalog response. */
  datatype Body = VideoArray(videos: seq<Video>) | ErrorObject(error: Message) | Unparsable

  /** How the catalog request ended. */
  datatype FetchResult = NetworkFailure | Response(status: int, body: Body)

  /** `email && email.endsWith(ALLOWED_DOMAIN)`: a plain suffix check; an
      unset domain is compared as the text "undefined". */
  predicate DomainAllowed(email: Option<string>, allowedDomain: Option<string>)
    ensures DomainAllowed(email, allowedDomain) <==>
      Truthy(email) && exists local: string :: email.value == local + ToJsString(allowedDomain)
  {
    var d := ToJsString(allowedDomain);
    if Truthy(email) && EndsWith(email.value, d) then
      assert email.value == email.value[..|email.value| - |d|] + d;
      true
    else false
  }

  /** The check does not look for an '@': a look-alike domain passes. */
  lemma LookalikeDomainPasses()
    ensures DomainAllowed(Some("eve@evil-example.com"), Some("example.com"))
    ensures !DomainAllowed(Some("eve@example.org"), Some("example.com"))
    ensures !DomainAllowed(Some(""), Some(""))
  {
    assert "eve@evil-example.com"[20 - 11..] == "example.com";
  }

  /** The message for a provider error code. */
  function ErrorForCode(code: string): (e: AuthError)
    ensures e.DomainMismatch? == false
    ensures e == ApiKeyInvalid <==> code == "auth/api-key-not-valid"
    ensures e == UnauthorizedDomain <==> code == "auth/unauthorized-domain"
    ensures e == PopupClosed <==> code == "auth/popup-closed-by-user"
  {
    if code == "auth/api-key-not-valid" then ApiKeyInvalid
    else if code == "auth/unauthorized-domain" then UnauthorizedDomain
    else if code == "auth/popup-closed-by-user" then PopupClosed
    else UnknownSignInError
  }

  /** The catalog a response delivers, or `None` when `fetchVideos` takes its
      error path (request failed, status outside 200-299, body not JSON, or
      an `error` member). */
  function FetchedVideos(result: FetchResult): (r: Option<seq<Video>>)
    ensures r.Some? <==> result.Response? && 200 <= result.status <= 299 && result.body.VideoArray?
    ensures r.Some? ==> r.value == result.body.videos
  {
    match result
    case NetworkFailure => None
    case Response(status, body) =>
      if !(200 <= status <= 299) then None
      else if body.VideoArray? then Some(body.videos)
      else None
  }

  class App {
    /** The configured allowed e-mail domain (`VITE_ALLOWED_DOMAIN`). */
    const allowedDomain: Option<string>
    var user: Option<User>
    var authError: Option<AuthError>
    var selectedCategory: string
    var selectedVideo: Option<Video>
    var videos: seq<Video>
    var isLoading: bool
    /** Whether the catalog error banner is shown (`dataError` is set). */
    var dataError: bool
    var showMyList: bool
    var showHistory: bool
    var myList: seq<Video>
    var history: seq<Video>
    var showIntro: bool

    /** The initial state of every hook. */
    constructor (allowedDomain: Option<string>)
      ensures this.allowedDomain == allowedDomain
      ensures user.None? && authError.None? && selectedCategory == AllCategories && selectedVideo.None?
      ensures videos == [] && isLoading && !dataError
      ensures !showMyList && !showHistory && myList == [] && history == [] && showIntro
    {
      this.allowedDomain := allowedDomain;
      user, authError := None, None;
      selectedCategory, selectedVideo := AllCategories, None;
      videos, isLoading, dataError := [], true, false;
      showMyList, showHistory, myList, history := false, false, [], [];
      showIntro := true;
    }

    /** The screen routing of the render: loading while the session is not
        known, login without a user, the intro, then the main screen. */
    function CurrentScreen(): (s: Screen)
      reads this
      ensures s == LoadingScreen <==> isLoading && user.None?
      ensures s == LoginScreen <==> !isLoading && user.None?
      ensures s == IntroScreen <==> user.Some? && showIntro
      ensures s == MainScreen <==> user.Some? && !showIntro
    {
      if isLoading && user.None? then LoadingScreen
      else if user.None? then LoginScreen
      else if showIntro then IntroScreen
      else MainScreen
    }

    /** `filteredVideos`: the catalog under the selected category. */
    function FilteredVideos(): (r: seq<Video>)
      reads this
      ensures selectedCategory == AllCategories ==> r == videos
      ensures forall v :: v in r ==> v in videos
      ensures selectedCategory != AllCategories ==> forall v :: v in r ==> CategoryOf(v) == selectedCategory
    {
      var r := FilterByCategory(videos, selectedCategory);
      assert forall v :: v in r ==> multiset(r)[v] > 0;
      r
    }

    /** The hero banner's image: shown only when some video of the catalog
        is in the selected category, for the first of them; its inner `None`
        is the null the banner then receives. */
    function HeroImage(): (r: Option<Option<string>>)
      reads this
      ensures r.Some? <==> exists i :: 0 <= i < |videos| && InCategory(videos[i], selectedCategory)
      ensures forall k ::
        (0 <= k < |videos| && InCategory(videos[k], selectedCategory) &&
         forall j :: 0 <= j < k ==> !InCategory(videos[j], selectedCategory)) ==>
        r == Some(Thumbnail.HeroBackground(videos[k]))
    {
      var f := FilteredVideos();
      FirstsOfFilter(videos, selectedCategory);
      if |f| > 0 then Some(Thumbnail.HeroBackground(f[0])) else None
    }

    /** The `onAuthStateChanged` listener. */
    method OnAuthStateChanged(current: Option<User>)
      modifies this
      ensures user == current && !isLoading
      ensures showIntro == (current.Some? || old(showIntro))
      ensures authError == old(authError) && videos == old(videos) && dataError == old(dataError)
      ensures selectedCategory == old(selectedCategory) && selectedVideo == old(selectedVideo)
      ensures myList == old(myList) && history == old(history)
      ensures showMyList == old(showMyList) && showHistory == old(showHistory)
    {
      user := current;
      isLoading := false;
      if current.Some? {
        showIntro := true;
      }
    }

    /** The effect that runs whenever `user` changes: with a user it starts
        the catalog request, without one it clears the catalog. */
    method UserEffect()
      modifies this
      ensures user.Some? ==> isLoading && !dataError && videos == old(videos)
      ensures user.None? ==> videos == [] && isLoading == old(isLoading) && dataError == old(dataError)
      ensures user == old(user) && authError == old(authError) && showIntro == old(showIntro)
      ensures selectedCategory == old(selectedCategory) && selectedVideo == old(selectedVideo)
      ensures myList == old(myList) && history == old(history)
      ensures showMyList == old(showMyList) && showHistory == old(showHistory)
    {
      if user.Some? {
        StartFetch();
      }
      if user.None? {
        videos := [];
      }
    }

    /** `fetchVideos` up to the request: loading, no error banner. */
    method StartFetch()
      modifies this
      ensures isLoading && !dataError
      ensures videos == old(videos) && user == old(user) && authError == old(authError)
      ensures showIntro == old(showIntro) && selectedCategory == old(selectedCategory)
      ensures selectedVideo == old(selectedVideo) && myList == old(myList) && history == old(history)
      ensures showMyList == old(showMyList) && showHistory == old(showHistory)
    {
      isLoading := true;
      dataError := false;
    }

    /** `fetchVideos` once the request has settled: the catalog is replaced
        on success; on every failure the banner is raised and the previous
        catalog kept. Loading ends either way. */
    method FinishFetch(result: FetchResult)
      modifies this
      ensures !isLoading
      ensures FetchedVideos(result).Some? ==> videos == FetchedVideos(result).value && dataError == old(dataError)
      ensures FetchedVideos(result).None? ==> videos == old(videos) && dataError
      ensures user == old(user) && authError == old(authError) && showIntro == old(showIntro)
      ensures selectedCategory == old(selectedCategory) && selectedVideo == old(selectedVideo)
      ensures myList == old(myList) && history == old(history)
      ensures showMyList == old(showMyList) && showHistory == old(showHistory)
    {
      var fetched := FetchedVideos(result);
      if fetched.Some? {
        videos := fetched.value;
      } else {
        dataError := true;
      }
      isLoading := false;
    }

    /** `handleLogin` after the popup has settled. A user is kept only when
        the popup produced one whose e-mail passes the domain check. A
        rejected user is signed out again; `signOutError` is the error code
        when that sign-out fails, which then takes the generic error path.
        Any outcome but success leaves no user and a message. */
    method HandleLogin(result: SignInResult, signOutError: Option<string>)
      modifies this
      ensures user.Some? <==> result.SignedIn? && DomainAllowed(result.user.email, allowedDomain)
      ensures user.Some? ==> user.value == result.user && authError.None?
      ensures result.SignedIn? && user.None? ==>
        authError == Some(if signOutError.Some? then ErrorForCode(signOutError.value) else DomainMismatch(result.user.email))
      ensures result.SignInFailed? ==> authError == Some(ErrorForCode(result.code))
      ensures videos == old(videos) && isLoading == old(isLoading) && dataError == old(dataError)
      ensures showIntro == old(showIntro) && selectedCategory == old(selectedCategory)
      ensures selectedVideo == old(selectedVideo) && myList == old(myList) && history == old(history)
      ensures showMyList == old(showMyList) && showHistory == old(showHistory)
    {
      authError := None;
      match result
      case SignedIn(u) =>
        if DomainAllowed(u.email, allowedDomain) {
          user := Some(u);
        } else if signOutError.Some? {
          authError := Some(ErrorForCode(signOutError.value));
          user := None;
        } else {
          authError := Some(DomainMismatch(u.email));
          user := None;
        }
      case SignInFailed(code) =>
        authError := Some(ErrorForCode(code));
        user := None;
    }

    /** `handleLogout`; `signedOut` is whether `signOut` succeeded (a failure
        is only logged). */
    method HandleLogout(signedOut: bool)
      modifies this
      ensures signedOut ==> user.None? && authError.None? && showIntro
      ensures !signedOut ==> user == old(user) && authError == old(authError) && showIntro == old(showIntro)
      ensures videos == old(videos) && isLoading == old(isLoading) && dataError == old(dataError)
      ensures selectedCategory == old(selectedCategory) && selectedVideo == old(selectedVideo)
      ensures myList == old(myList) && history == old(history)
      ensures showMyList == old(showMyList) && showHistory == old(showHistory)
    {
      if signedOut {
        user := None;
        authError := None;
        showIntro := true;
      }
    }

    /** The intro's timer firing (`onEnd`). */
    method EndIntro()
      modifies this`showIntro
      ensures !showIntro
    {
      showIntro := false;
    }

    /** A category chosen in the header menu. */
    method SelectCategory(category: string)
      modifies this`selectedCategory
      ensures selectedCategory == category
    {
      selectedCategory := category;
    }

    method OpenModal(v: Video)
      modifies this`selectedVideo
      ensures selectedVideo == Some(v)
    {
      selectedVideo := Some(v);
    }

    method CloseModal()
      modifies this`selectedVideo
      ensures selectedVideo.None?
    {
      selectedVideo := None;
    }

    /** `handleShowMyList`: loads the user's my-list and opens its overlay;
        nothing without a user. */
    method HandleShowMyList(db: Database)
      modifies this`myList, this`showMyList
      ensures user.None? ==> myList == old(myList) && showMyList == old(showMyList)
      ensures user.Some? ==> showMyList && IsListingOf(myList, db.docs, user.value.uid, MyList)
    {
      if user.None? {
        return;
      }
      var list := FetchMyList(db, user);
      myList := list;
      showMyList := true;
    }

    /** `handleShowHistory`: loads the user's history, most recent first, and
        opens its overlay; nothing without a user. */
    method HandleShowHistory(db: Database)
      modifies this`history, this`showHistory
      ensures user.None? ==> history == old(history) && showHistory == old(showHistory)
      ensures user.Some? ==> showHistory && ViewedDescending(history)
      ensures user.Some? ==>
        exists snap :: IsSnapshotOf(snap, db.docs, user.value.uid, History) && multiset(history) == multiset(Data(snap))
    {
      if user.None? {
        return;
      }
      var list := FetchHistory(db, user);
      history := list;
      showHistory := true;
    }

    /** The overlays' close buttons. */
    method CloseMyList()
      modifies this`showMyList
      ensures !showMyList
    {
      showMyList := false;
    }

    method CloseHistory()
      modifies this`showHistory
      ensures !showHistory
    {
      showHistory := false;
    }
  }

  /** Signing in from the login screen with an e-mail that fails the domain
      check: the listener has reported no session, the login screen shows,
      and after the rejected sign-in it still shows, now with the domain
      message. */
  method SignInScenario(allowed: string, u: User) returns (before: Screen, after: Screen, message: Option<AuthError>)
    requires Truthy(u.email) && !EndsWith(u.email.value, allowed)
    ensures before == LoginScreen && after == LoginScreen
    ensures message == Some(DomainMismatch(u.email))
  {
    var app := new App(Some(allowed));
    app.OnAuthStateChanged(None);
    before := app.CurrentScreen();
    app.HandleLogin(SignedIn(u), None);
    after := app.CurrentScreen();
    message := app.authError;
  }
}
