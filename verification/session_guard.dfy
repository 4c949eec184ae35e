/**
  The root layout's navigation guard: the loading flag and the current session, kept up to
  date by the initial session fetch and by authentication-change notifications, and the rule
  that sends signed-out users to login and signed-in users out of the authentication screens.
 */
module SessionGuard {
  import opened Wrappers

  /** The guard's decision. */
  datatype Redirect = NoRedirect | ToLogin | ToGallery

  /** The route segments of `/auth/login`, where `ToLogin` leads. */
  const LoginSegments: seq<string> := ["auth", "login"]
  /** The route segments of `/(tabs)/gallery`, where `ToGallery` leads. */
  const GallerySegments: seq<string> := ["(tabs)", "gallery"]

  /** The first route segment names one of the two authentication groups. */
  predicate InAuthGroup(segments: seq<string>) {
    |segments| > 0 && (segments[0] == "(auth)" || segments[0] == "auth")
  }

  /** The redirect rule, evaluated on every change of the session, the loading flag or the
      route: nothing while loading; otherwise login for a signed-out user outside the
      authentication groups and the gallery for a signed-in user inside them. */
  function Guard(loading: bool, hasSession: bool, segments: seq<string>): (r: Redirect)
    ensures loading ==> r == NoRedirect
    ensures r == ToLogin <==> !loading && !hasSession && !InAuthGroup(segments)
    ensures r == ToGallery <==> !loading && hasSession && InAuthGroup(segments)
  {
    if loading then NoRedirect
    else if !hasSession && !InAuthGroup(segments) then ToLogin
    else if hasSession && InAuthGroup(segments) then ToGallery
    else NoRedirect
  }

  /** Where a redirect leads. */
  function Target(r: Redirect): seq<string>
    requires r != NoRedirect
  {
    if r == ToLogin then LoginSegments else GallerySegments
  }

  /** The rule is stable at its targets: once a redirect has been followed and the session is
      unchanged, the guard asks for nothing more, so one redirect never triggers another. */
  lemma RedirectSettles(hasSession: bool, segments: seq<string>)
    ensures var r := Guard(false, hasSession, segments);
      r != NoRedirect ==> Guard(false, hasSession, Target(r)) == NoRedirect
  {
  }

  /** A signed-in user anywhere under the tabs, and a signed-out user anywhere in the
      authentication groups, stays where they are. */
  lemma SettledPlaces(rest: seq<string>)
    ensures Guard(false, true, ["(tabs)"] + rest) == NoRedirect
    ensures Guard(false, false, ["auth"] + rest) == NoRedirect
    ensures Guard(false, false, ["(auth)"] + rest) == NoRedirect
  {
  }

  /** A signed-in user. */
  datatype Session = Session(userId: string)

  /** The layout's two pieces of state. */
  datatype AuthState = AuthState(loading: bool, session: Option<Session>)

  /** The state on mount: loading, with no session. */
  const Initial := AuthState(true, None)

  /** The completion of the initial session fetch, and an authentication-change notification;
      each carries the session it reports. */
  datatype AuthEvent = InitialSession(reported: Option<Session>) | AuthChanged(reported: Option<Session>)

  /** One update: both kinds of event replace the session, only the initial fetch clears
      loading. */
  function Step(st: AuthState, ev: AuthEvent): (st': AuthState)
    ensures st'.session == ev.reported
    ensures !st'.loading <==> !st.loading || ev.InitialSession?
  {
    match ev
    case InitialSession(s) => AuthState(false, s)
    case AuthChanged(s) => st.(session := s)
  }

  /** The state after a sequence of events, in arrival order. */
  function Run(st: AuthState, evs: seq<AuthEvent>): (st': AuthState)
    ensures evs == [] ==> st' == st
    ensures !st.loading ==> !st'.loading
    decreases |evs|
  {
    if evs == [] then st else Step(Run(st, evs[..|evs| - 1]), evs[|evs| - 1])
  }

  /** Events are taken one at a time: running a sequence in two parts is running it whole. */
  lemma {:induction false} RunConcat(st: AuthState, evs: seq<AuthEvent>, more: seq<AuthEvent>)
    ensures Run(st, evs + more) == Run(Run(st, evs), more)
    decreases |more|
  {
    if more != [] {
      var all := evs + more;
      assert all[..|all| - 1] == evs + more[..|more| - 1];
      assert all[|all| - 1] == more[|more| - 1];
      RunConcat(st, evs, more[..|more| - 1]);
    } else {
      assert evs + more == evs;
    }
  }

  /** Some event of the sequence is the initial fetch completing. */
  predicate Fetched(evs: seq<AuthEvent>) {
    exists k :: 0 <= k < |evs| && evs[k].InitialSession?
  }

  /** Loading stays on until the initial fetch completes, whatever authentication changes
      arrive before it, and stays off from then on. */
  lemma {:induction false} LoadingUntilFetched(st: AuthState, evs: seq<AuthEvent>)
    ensures Run(st, evs).loading <==> st.loading && !Fetched(evs)
    decreases |evs|
  {
    if evs != [] {
      var init := evs[..|evs| - 1];
      LoadingUntilFetched(st, init);
      if Fetched(init) {
        var k :| 0 <= k < |init| && init[k].InitialSession?;
        assert evs[k] == init[k];
      }
      if Fetched(evs) && !evs[|evs| - 1].InitialSession? {
        var k :| 0 <= k < |evs| && evs[k].InitialSession?;
        assert init[k] == evs[k];
      }
    }
  }

  /** The session is whatever the latest event reported. */
  lemma SessionIsLatest(st: AuthState, evs: seq<AuthEvent>)
    requires evs != []
    ensures Run(st, evs).session == evs[|evs| - 1].reported
  {
  }

  /** Before the initial fetch completes, the guard never redirects. */
  lemma NoRedirectBeforeFetch(evs: seq<AuthEvent>, segments: seq<string>)
    requires !Fetched(evs)
    ensures var st := Run(Initial, evs); Guard(st.loading, st.session.Some?, segments) == NoRedirect
  {
    LoadingUntilFetched(Initial, evs);
  }
}
