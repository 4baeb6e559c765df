/** Sequences of events acting on the session store and on the storage it
    shares with the profile page, and what holds across them. */
module SessionTrace {
  import opened Wrappers
  import opened Users
  import opened Json
  import opened Storage
  import opened AuthProvider
  import ProfilePage

  /** An event that touches the session or its storage: the provider's
      mount effect, `setAuth`, `clearAuth`, and the profile page's load
      effect (which writes the user slot but not the store's memory). */
  datatype Event =
    | Hydrated
    | SignedIn(u: User, t: string)
    | SignedOut
    | ProfileLoaded(fetch: ProfilePage.Fetch, cancelled: bool)

  function Apply(step: Step, codec: Codec, e: Event): Step {
    match e
    case Hydrated => Hydrate(step.session, step.store, codec)
    case SignedIn(u, t) => SetAuth(step.session, step.store, codec, u, t)
    case SignedOut => ClearAuth(step.session, step.store)
    case ProfileLoaded(fetch, cancelled) =>
      Step(step.session, ProfilePage.Load(None, step.store, codec, fetch, cancelled).store)
  }

  function Run(step: Step, codec: Codec, events: seq<Event>): Step
    decreases |events|
  {
    if events == [] then step
    else Run(Apply(step, codec, events[0]), codec, events[1..])
  }

  predicate HasHydration(events: seq<Event>) {
    exists i :: 0 <= i < |events| && events[i].Hydrated?
  }

  /** `initialized` is true after a run exactly when it was true before or
      the run hydrated; in particular no event ever turns it back to false. */
  lemma {:induction false} InitializedMonotone(step: Step, codec: Codec, events: seq<Event>)
    ensures Run(step, codec, events).session.initialized <==>
              step.session.initialized || HasHydration(events)
    decreases |events|
  {
    if events != [] {
      var next := Apply(step, codec, events[0]);
      InitializedMonotone(next, codec, events[1..]);
      assert next.session.initialized <==> step.session.initialized || events[0].Hydrated?;
      if HasHydration(events[1..]) {
        var i :| 0 <= i < |events[1..]| && events[1..][i].Hydrated?;
        assert events[i + 1].Hydrated?;
      }
      if HasHydration(events) && !events[0].Hydrated? {
        var i :| 0 <= i < |events| && events[i].Hydrated?;
        assert events[1..][i - 1].Hydrated?;
      }
    }
  }

  /** A reload from the store's storage would restore the user and token the
      store holds in memory. */
  ghost predicate Persisted(step: Step, codec: Codec) {
    var r := Restart(step.store, codec);
    r.user == step.session.user && r.token == step.session.token
  }

  /** Events that keep memory and storage in step: hydration, `setAuth` with
      a non-empty token, `clearAuth`, and a profile load that writes nothing
      (its request failed or the page was left). */
  predicate KeepsInStep(e: Event) {
    match e
    case Hydrated => true
    case SignedIn(_, t) => t != ""
    case SignedOut => true
    case ProfileLoaded(fetch, cancelled) => fetch.FetchFailed? || cancelled
  }

  lemma ApplyKeepsPersisted(step: Step, codec: Codec, e: Event)
    requires codec.RoundTrips()
    requires Persisted(step, codec) && KeepsInStep(e)
    ensures Persisted(Apply(step, codec, e), codec)
  {
    match e
    case Hydrated =>
    case SignedIn(u, t) => SetAuthRoundTrip(step.session, step.store, codec, u, t);
    case SignedOut => ClearAuthThenRestart(step.session, step.store, codec);
    case ProfileLoaded(fetch, cancelled) =>
  }

  /** With a faithful codec, the session store's own operations keep what
      storage would restore equal to what memory holds, so a reload at any
      point resumes the same session. */
  lemma {:induction false} PersistedAlongRun(step: Step, codec: Codec, events: seq<Event>)
    requires codec.RoundTrips()
    requires Persisted(step, codec)
    requires forall i :: 0 <= i < |events| ==> KeepsInStep(events[i])
    ensures Persisted(Run(step, codec, events), codec)
    decreases |events|
  {
    if events != [] {
      ApplyKeepsPersisted(step, codec, events[0]);
      PersistedAlongRun(Apply(step, codec, events[0]), codec, events[1..]);
    }
  }

  /** The profile page's successful load writes the fetched user over the
      stored one without telling the store: when that user differs from the
      one in memory, a reload would restore a different user. */
  lemma ProfileLoadBreaksPersisted(step: Step, codec: Codec, me: User)
    requires codec.RoundTrips()
    requires step.session.user != Some(me)
    ensures !Persisted(Apply(step, codec, ProfileLoaded(ProfilePage.Fetched(me), false)), codec)
    ensures Restart(Apply(step, codec, ProfileLoaded(ProfilePage.Fetched(me), false)).store, codec).user == Some(me)
  {
    var after := Apply(step, codec, ProfileLoaded(ProfilePage.Fetched(me), false));
    assert GetItem(after.store, UserKey) == Some(codec.serialize(me));
    assert codec.serialize(me) != "" && codec.parse(codec.serialize(me)) == Parsed(Some(me));
  }

  /** The sign-in, sign-out scenario: from empty storage a mount hydrates to
      the anonymous session; signing in as Jane with token `tok-123` gives
      exactly that user and token; signing out returns to anonymous, and the
      session stays initialized throughout. */
  lemma SignInSignOutScenario(codec: Codec)
    ensures var jane := User(map["firstName" := "Jane"]);
            var start := Step(Mount(), map[]);
            && Run(start, codec, [Hydrated]).session == Session(None, None, true)
            && Run(start, codec, [Hydrated, SignedIn(jane, "tok-123")]).session
                 == Session(Some(jane), Some("tok-123"), true)
            && Run(start, codec, [Hydrated, SignedIn(jane, "tok-123"), SignedOut]).session
                 == Session(None, None, true)
  {
    var jane := User(map["firstName" := "Jane"]);
    var start := Step(Mount(), map[]);
    var s1 := Apply(start, codec, Hydrated);
    var s2 := Apply(s1, codec, SignedIn(jane, "tok-123"));
    var s3 := Apply(s2, codec, SignedOut);
    var e := [Hydrated, SignedIn(jane, "tok-123"), SignedOut];
    assert Run(start, codec, e) == Run(s1, codec, e[1..]);
    assert Run(s1, codec, e[1..]) == Run(s2, codec, e[1..][1..]);
    assert Run(s2, codec, e[1..][1..]) == Run(s3, codec, e[1..][1..][1..]);
    assert e[1..][1..][1..] == [];
    var e2 := [Hydrated, SignedIn(jane, "tok-123")];
    assert Run(start, codec, e2) == Run(s1, codec, e2[1..]);
    assert Run(s1, codec, e2[1..]) == Run(s2, codec, e2[1..][1..]);
    assert e2[1..][1..] == [];
  }
}
