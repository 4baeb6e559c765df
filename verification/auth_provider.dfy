/** The client-side session store: the in-memory `user`, `token` and
    `initialized` values shared through the view tree, kept in step with the
    `session_token` and `pharmacy_user` slots of local storage. Each
    operation is one atomic step from a session and a store to a new session
    and a new store. */
module AuthProvider {
  import opened Wrappers
  import opened Users
  import opened Json
  import opened Storage
  import opened Text

  /** The value the provider hands to its consumers (`user`, `token`,
      `initialized`); `setAuth` and `clearAuth` are the functions below. */
  datatype Session = Session(user: Option<User>, token: Option<string>, initialized: bool)

  /** The observable phases of a session. `UserWithoutToken` is a user
      restored from storage with no token beside it. */
  datatype Phase = Uninitialized | Anonymous | Authenticated | UserWithoutToken

  function PhaseOf(s: Session): Phase {
    if !s.initialized then Uninitialized
    else if s.user.None? then Anonymous
    else if s.token.Some? then Authenticated
    else UserWithoutToken
  }

  /** A session together with the storage it leaves behind. */
  datatype Step = Step(session: Session, store: Store)

  /** The state the provider starts with when it is mounted. */
  function Mount(): (s: Session)
    ensures PhaseOf(s) == Uninitialized
    ensures s.user == None && s.token == None
  {
    Session(None, None, false)
  }

  /** The mount effect: restore the session from storage. A stored token is
      taken only when it is non-empty, and it is taken before the stored
      user is parsed, so a parse that throws keeps the token. A parse that
      throws is swallowed. Whatever happens, the session ends initialized,
      and storage is only read. */
  function Hydrate(s: Session, st: Store, codec: Codec): (r: Step)
    ensures r.store == st
    ensures r.session.initialized
    ensures PhaseOf(r.session) != Uninitialized
    ensures Present(GetItem(st, TokenKey)) ==> r.session.token == GetItem(st, TokenKey)
    ensures r.session.token != s.token ==>
              Present(GetItem(st, TokenKey)) && r.session.token == GetItem(st, TokenKey)
    ensures r.session.user != s.user ==>
              Present(GetItem(st, UserKey)) && codec.parse(st[UserKey]) == Parsed(r.session.user)
    ensures Present(GetItem(st, UserKey)) && codec.parse(st[UserKey]).Parsed? ==>
              r.session.user == codec.parse(st[UserKey]).value
  {
    var storedToken := GetItem(st, TokenKey);
    var rawUser := GetItem(st, UserKey);
    var withToken := if Present(storedToken) then s.(token := storedToken) else s;
    var withUser :=
      if Present(rawUser) then
        match codec.parse(rawUser.value)
        case Malformed => withToken
        case Parsed(v) => withToken.(user := v)
      else withToken;
    Step(withUser.(initialized := true), st)
  }

  /** `setAuth(user, token)`: both values are set in memory together and both
      slots are written; nothing else in storage changes and `initialized`
      is kept. */
  function SetAuth(s: Session, st: Store, codec: Codec, u: User, t: string): (r: Step)
    ensures r.session.user == Some(u) && r.session.token == Some(t)
    ensures r.session.initialized == s.initialized
    ensures s.initialized ==> PhaseOf(r.session) == Authenticated
    ensures GetItem(r.store, TokenKey) == Some(t)
    ensures GetItem(r.store, UserKey) == Some(codec.serialize(u))
    ensures SameOtherSlots(r.store, st)
  {
    var st1 := SetItem(st, TokenKey, t);
    var st2 := SetItem(st1, UserKey, codec.serialize(u));
    Step(Session(Some(u), Some(t), s.initialized), st2)
  }

  /** `clearAuth()`: the user and token are dropped from memory and both
      slots are removed; nothing else in storage changes and `initialized`
      is kept. */
  function ClearAuth(s: Session, st: Store): (r: Step)
    ensures r.session.user == None && r.session.token == None
    ensures r.session.initialized == s.initialized
    ensures s.initialized ==> PhaseOf(r.session) == Anonymous
    ensures GetItem(r.store, TokenKey) == None && GetItem(r.store, UserKey) == None
    ensures SameOtherSlots(r.store, st)
  {
    var st1 := RemoveItem(st, TokenKey);
    var st2 := RemoveItem(st1, UserKey);
    Step(Session(None, None, s.initialized), st2)
  }

  /** The message `useAuth` throws outside a provider. */
  const OutsideProvider: string := "useAuth must be used within an AuthProvider"

  /** `useAuth()`: the provider's value, or a thrown error when there is no
      provider above the caller. It never hands back a missing value. */
  function UseAuth(ctx: Option<Session>): (r: Result<Session>)
    ensures r.Success? <==> ctx.Some?
    ensures r.Success? ==> r.value == ctx.value
    ensures r.Failure? ==> r.message == OutsideProvider
  {
    match ctx
    case Some(c) => Success(c)
    case None => Failure(OutsideProvider)
  }

  /** The session a fresh mount restores from storage (a page reload). */
  function Restart(st: Store, codec: Codec): Session {
    Hydrate(Mount(), st, codec).session
  }

  /** Hydration restores the stored token exactly when it is non-empty, and
      otherwise keeps the token it had. */
  lemma HydrateToken(s: Session, st: Store, codec: Codec)
    ensures Present(GetItem(st, TokenKey)) ==> Hydrate(s, st, codec).session.token == Some(st[TokenKey])
    ensures !Present(GetItem(st, TokenKey)) ==> Hydrate(s, st, codec).session.token == s.token
  {
  }

  /** Hydration takes the stored user exactly when its text is non-empty and
      parses, including a stored `null`, which clears the user; otherwise
      the user is kept. */
  lemma HydrateUser(s: Session, st: Store, codec: Codec)
    ensures Present(GetItem(st, UserKey)) && codec.parse(st[UserKey]).Parsed? ==>
              Hydrate(s, st, codec).session.user == codec.parse(st[UserKey]).value
    ensures !Present(GetItem(st, UserKey)) || codec.parse(st[UserKey]).Malformed? ==>
              Hydrate(s, st, codec).session.user == s.user
  {
  }

  /** Partial recovery: with a non-empty stored token and a stored user that
      does not parse, hydration ends with the token restored, the user left
      as it was, and the session initialized. */
  lemma HydrateMalformedUser(s: Session, st: Store, codec: Codec)
    requires Present(GetItem(st, TokenKey))
    requires Present(GetItem(st, UserKey)) && codec.parse(st[UserKey]) == Malformed
    ensures Hydrate(s, st, codec).session == Session(s.user, Some(st[TokenKey]), true)
  {
  }

  /** Hydrating from storage that holds neither slot leaves a fresh mount
      anonymous. */
  lemma RestartEmpty(st: Store, codec: Codec)
    requires TokenKey !in st && UserKey !in st
    ensures Restart(st, codec) == Session(None, None, true)
    ensures PhaseOf(Restart(st, codec)) == Anonymous
  {
  }

  /** `clearAuth` is idempotent: a second call changes neither the session
      nor storage. */
  lemma ClearAuthIdempotent(s: Session, st: Store)
    ensures ClearAuth(ClearAuth(s, st).session, ClearAuth(s, st).store) == ClearAuth(s, st)
  {
  }

  /** Round trip: after `setAuth(u, t)` with a non-empty token, a reload
      restores token `t` and whatever parsing the serialized `u` yields
      (the user stays `null` if that parse throws). */
  lemma SetAuthThenRestart(s: Session, st: Store, codec: Codec, u: User, t: string)
    requires t != "" && codec.serialize(u) != ""
    ensures var r := Restart(SetAuth(s, st, codec, u, t).store, codec);
            && r.token == Some(t)
            && r.initialized
            && r.user == (match codec.parse(codec.serialize(u))
                          case Malformed => None
                          case Parsed(v) => v)
  {
  }

  /** With a faithful codec the round trip is exact: a reload after
      `setAuth(u, t)` with a non-empty token sees the authenticated session
      `setAuth` established. */
  lemma SetAuthRoundTrip(s: Session, st: Store, codec: Codec, u: User, t: string)
    requires codec.RoundTrips()
    requires t != ""
    ensures Restart(SetAuth(s, st, codec, u, t).store, codec) == Session(Some(u), Some(t), true)
  {
    SetAuthThenRestart(s, st, codec, u, t);
    assert codec.parse(codec.serialize(u)) == Parsed(Some(u));
  }

  /** The truthiness test makes the round trip fail for the empty token:
      `setAuth(u, "")` holds the token `""` in memory, but a reload does not
      restore it. */
  lemma EmptyTokenNotRestored(s: Session, st: Store, codec: Codec, u: User)
    ensures SetAuth(s, st, codec, u, "").session.token == Some("")
    ensures Restart(SetAuth(s, st, codec, u, "").store, codec).token == None
  {
  }

  /** After `clearAuth`, a reload restores the anonymous session. */
  lemma ClearAuthThenRestart(s: Session, st: Store, codec: Codec)
    ensures Restart(ClearAuth(s, st).store, codec) == Session(None, None, true)
  {
  }

  /** The store reaches the user-without-token phase on its own: signing in
      with the empty token and reloading restores the user but not the
      token. */
  lemma EmptyTokenSignInLeavesUserWithoutToken(s: Session, st: Store, codec: Codec, u: User)
    requires codec.RoundTrips()
    ensures PhaseOf(Restart(SetAuth(s, st, codec, u, "").store, codec)) == UserWithoutToken
  {
    var st' := SetAuth(s, st, codec, u, "").store;
    assert GetItem(st', TokenKey) == Some("");
    assert codec.serialize(u) != "" && codec.parse(codec.serialize(u)) == Parsed(Some(u));
  }

  /** A stored user with no stored token (or an empty one) is restored on its
      own, so hydration can reach a phase in which a user is present but no
      token is. */
  lemma UserWithoutTokenReachable(st: Store, codec: Codec, u: User)
    requires codec.RoundTrips()
    requires !Present(GetItem(st, TokenKey))
    ensures PhaseOf(Restart(st[UserKey := codec.serialize(u)], codec)) == UserWithoutToken
  {
    var st' := st[UserKey := codec.serialize(u)];
    assert GetItem(st', TokenKey) == GetItem(st, TokenKey);
    assert codec.serialize(u) != "" && codec.parse(codec.serialize(u)) == Parsed(Some(u));
  }
}
