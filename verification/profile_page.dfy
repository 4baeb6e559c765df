/** The profile page's deterministic logic: the heading name, the per-field
    display fallback, the date guard, the tab selection, and the load effect
    that fetches the signed-in user and falls back to the stored copy. */
module ProfilePage {
  import opened Wrappers
  import opened Users
  import opened Json
  import opened Storage
  import opened Text

  const NotSet: string := "Not set"
  const DefaultHeading: string := "Your profile"

  // ---------------------------------------------------------------- names

  /** `user?.firstName || user?.lastName`: some part of the name is there. */
  predicate NamePresent(user: Option<User>) {
    user.Some? && (Present(user.value.Field("firstName")) || Present(user.value.Field("lastName")))
  }

  /** Every part of the name that is given is white space only. */
  predicate BlankName(u: User) {
    AllWhiteSpace(u.Field("firstName").GetOr("")) && AllWhiteSpace(u.Field("lastName").GetOr(""))
  }

  /** `first last` with a missing part read as the empty string. */
  function JoinedName(u: User): string {
    u.Field("firstName").GetOr("") + " " + u.Field("lastName").GetOr("")
  }

  /** The heading: the trimmed joined name when some part of it is non-empty,
      otherwise the default heading. The trimmed name never starts or ends
      with white space, and it is empty exactly when both parts are white
      space only. */
  function FullName(user: Option<User>): (r: string)
    ensures !NamePresent(user) ==> r == DefaultHeading
    ensures NamePresent(user) ==> Trimmed(r)
    ensures NamePresent(user) ==> (r == "" <==> BlankName(user.value))
  {
    if NamePresent(user) then
      var u := user.value;
      var first := u.Field("firstName").GetOr("");
      var last := u.Field("lastName").GetOr("");
      AllWhiteSpaceSplit(JoinedName(u), |first|);
      AllWhiteSpaceSplit(JoinedName(u)[|first|..], 1);
      assert JoinedName(u)[..|first|] == first;
      assert JoinedName(u)[|first|..][1..] == last;
      Trim(JoinedName(u))
    else
      DefaultHeading
  }

  /** With some part of the name given, the heading is the joined name
      `first last` with the white space at its two ends cut off: it sits in
      the joined name with only white space around it, and it neither starts
      nor ends with white space. */
  lemma FullNameIsTrimmedJoin(u: User)
    requires NamePresent(Some(u))
    ensures exists i :: InfixAt(JoinedName(u), FullName(Some(u)), i)
    ensures Trimmed(FullName(Some(u)))
  {
    TrimIsInfix(JoinedName(u));
    assert FullName(Some(u)) == Trim(JoinedName(u));
  }

  /** A first and a last name with no white space at their ends are shown
      as `first last`, unchanged. */
  lemma FullNameOfTrimmedParts(u: User, first: string, last: string)
    requires u.Field("firstName") == Some(first) && u.Field("lastName") == Some(last)
    requires first != "" && last != "" && Trimmed(first) && Trimmed(last)
    ensures FullName(Some(u)) == first + " " + last
  {
    var j := first + " " + last;
    assert j == JoinedName(u);
    assert j[0] == first[0] && j[|j| - 1] == last[|last| - 1];
    TrimKeepsTrimmed(j);
  }

  // ------------------------------------------------------------ display

  /** One label/value line of the details panel. */
  datatype Row = Row(caption: string, text: string)

  /** `formatDate(iso)`: `Not set` for a missing or empty value and for one
      that does not parse as a date; otherwise the date rendered for the
      `en-GB` locale. Date parsing and locale rendering are supplied as
      `isValid` and `localize`. */
  function FormatDate(iso: Option<string>, isValid: string -> bool, localize: string -> string): (r: string)
    ensures !Present(iso) ==> r == NotSet
    ensures Present(iso) && !isValid(iso.value) ==> r == NotSet
    ensures Present(iso) && isValid(iso.value) ==> r == localize(iso.value)
  {
    if !Present(iso) then NotSet
    else if !isValid(iso.value) then NotSet
    else localize(iso.value)
  }

  /** `fullName || "Not set"`: the name line of the details panel. */
  function NameText(u: User): string {
    var name := FullName(Some(u));
    if name != "" then name else NotSet
  }

  /** What a line of the details panel shows: the name, a plain text field
      with the `Not set` fallback, or a date field through `formatDate`. */
  datatype Line = NameLine | TextLine(caption: string, field: string) | DateLine(caption: string, field: string)

  /** The lines of the details panel, in the order the page lays them out. */
  const Layout: seq<Line> := [
    NameLine,
    TextLine("Email", "email"),
    TextLine("Phone", "phone"),
    TextLine("Gender", "gender"),
    DateLine("Date of birth", "dob"),
    DateLine("Joined", "createdAt"),
    TextLine("Address line 1", "address_line1"),
    TextLine("Address line 2", "address_line2"),
    TextLine("City", "city"),
    TextLine("County", "county"),
    TextLine("Postcode", "postalcode"),
    TextLine("Country", "country")
  ]

  /** One line of the details panel: its caption, and the text
      `fullName || "Not set"`, `field || "Not set"` or `formatDate(field)`. */
  function RenderLine(u: User, line: Line, isValid: string -> bool, localize: string -> string): (r: Row)
    ensures line.NameLine? ==> r.caption == "Name" && r.text == NameText(u)
    ensures !line.NameLine? ==> r.caption == line.caption
    ensures line.TextLine? && Present(u.Field(line.field)) ==> r.text == u.Field(line.field).value
    ensures line.TextLine? && !Present(u.Field(line.field)) ==> r.text == NotSet
    ensures line.DateLine? ==> r.text == FormatDate(u.Field(line.field), isValid, localize)
  {
    match line
    case NameLine => Row("Name", NameText(u))
    case TextLine(caption, field) => Row(caption, OrElse(u.Field(field), NotSet))
    case DateLine(caption, field) => Row(caption, FormatDate(u.Field(field), isValid, localize))
  }

  /** The details panel of a signed-in user: one row per line of the layout. */
  function DetailRows(u: User, isValid: string -> bool, localize: string -> string): (rows: seq<Row>)
    ensures |rows| == |Layout|
    ensures forall i :: 0 <= i < |rows| ==> rows[i] == RenderLine(u, Layout[i], isValid, localize)
    ensures seq(|rows|, i requires 0 <= i < |rows| => rows[i].caption)
              == ["Name", "Email", "Phone", "Gender", "Date of birth", "Joined",
                  "Address line 1", "Address line 2", "City", "County", "Postcode", "Country"]
  {
    seq(|Layout|, i requires 0 <= i < |Layout| => RenderLine(u, Layout[i], isValid, localize))
  }

  /** Each plain text line shows its field when the field is non-empty and
      `Not set` otherwise. */
  lemma TextRowsFallBack(u: User, isValid: string -> bool, localize: string -> string, i: nat)
    requires i < |Layout| && Layout[i].TextLine?
    ensures Present(u.Field(Layout[i].field)) ==>
              DetailRows(u, isValid, localize)[i].text == u.Field(Layout[i].field).value
    ensures !Present(u.Field(Layout[i].field)) ==> DetailRows(u, isValid, localize)[i].text == NotSet
  {
  }

  /** The two date lines, date of birth and join date, show `dob` and
      `createdAt` through `formatDate`: `Not set` when missing, empty or not
      a date, the localized date otherwise. */
  lemma DateRowsFormat(u: User, isValid: string -> bool, localize: string -> string)
    ensures Layout[4] == DateLine("Date of birth", "dob") && Layout[5] == DateLine("Joined", "createdAt")
    ensures DetailRows(u, isValid, localize)[4].text == FormatDate(u.Field("dob"), isValid, localize)
    ensures DetailRows(u, isValid, localize)[5].text == FormatDate(u.Field("createdAt"), isValid, localize)
    ensures forall i :: 0 <= i < |Layout| && Layout[i].DateLine? ==>
              (!Present(u.Field(Layout[i].field)) ==> DetailRows(u, isValid, localize)[i].text == NotSet)
  {
  }

  /** The name line shows `Not set` when some part of the name is given but
      every part is white space only (the heading is then empty), and the
      non-empty heading text otherwise. */
  lemma NameRowFallBack(u: User, isValid: string -> bool, localize: string -> string)
    ensures NamePresent(Some(u)) && BlankName(u) ==>
              FullName(Some(u)) == "" && DetailRows(u, isValid, localize)[0].text == NotSet
    ensures !(NamePresent(Some(u)) && BlankName(u)) ==>
              FullName(Some(u)) != "" && DetailRows(u, isValid, localize)[0].text == FullName(Some(u))
  {
    assert DetailRows(u, isValid, localize)[0].text == NameText(u);
  }

  /** No line of the details panel is blank, provided date rendering never
      yields the empty string. */
  lemma DetailRowsNeverBlank(u: User, isValid: string -> bool, localize: string -> string)
    requires forall d :: localize(d) != ""
    ensures forall i :: 0 <= i < |DetailRows(u, isValid, localize)| ==> DetailRows(u, isValid, localize)[i].text != ""
  {
    var rows := DetailRows(u, isValid, localize);
    forall i | 0 <= i < |rows|
      ensures rows[i].text != ""
    {
      match Layout[i]
      case NameLine =>
      case TextLine(_, field) =>
      case DateLine(_, field) =>
    }
  }

  // ---------------------------------------------------------------- load

  /** How the request for the signed-in user (`getLoggedInUserApi`) settled. */
  datatype Fetch = Fetched(me: User) | FetchFailed

  /** The page's `user` and the storage after the load effect. */
  datatype Loaded = Loaded(user: Option<User>, store: Store)

  /** The load effect, taken at the moment the request settles; `cancelled`
      says whether the page was left before that. A fetched user is shown
      and written over the stored user; the token slot is never touched.
      When the request fails, a non-empty stored user that parses is shown
      instead, and a parse that throws is swallowed. Once cancelled, the
      page's user is not changed and storage is not written. */
  function Load(user: Option<User>, st: Store, codec: Codec, fetch: Fetch, cancelled: bool): (r: Loaded)
    ensures cancelled ==> r.user == user && r.store == st
    ensures GetItem(r.store, TokenKey) == GetItem(st, TokenKey)
    ensures SameOtherSlots(r.store, st)
    ensures fetch.Fetched? && !cancelled ==>
              r.user == Some(fetch.me) && GetItem(r.store, UserKey) == Some(codec.serialize(fetch.me))
    ensures fetch.FetchFailed? ==> r.store == st
    ensures fetch.FetchFailed? && r.user != user ==>
              !cancelled && Present(GetItem(st, UserKey)) && codec.parse(st[UserKey]) == Parsed(r.user)
    ensures fetch.FetchFailed? && !cancelled && Present(GetItem(st, UserKey)) && codec.parse(st[UserKey]).Parsed? ==>
              r.user == codec.parse(st[UserKey]).value
  {
    match fetch
    case Fetched(me) =>
      if !cancelled then Loaded(Some(me), SetItem(st, UserKey, codec.serialize(me)))
      else Loaded(user, st)
    case FetchFailed =>
      var rawUser := GetItem(st, UserKey);
      if Present(rawUser) && !cancelled then
        match codec.parse(rawUser.value)
        case Malformed => Loaded(user, st)
        case Parsed(v) => Loaded(v, st)
      else Loaded(user, st)
  }

  /** With the request failing, the page falls back to the user the session
      store last wrote, when the codec round-trips and the load was not
      cancelled. */
  lemma LoadFallsBackToStoredUser(user: Option<User>, st: Store, codec: Codec, u: User)
    requires codec.RoundTrips()
    requires GetItem(st, UserKey) == Some(codec.serialize(u))
    ensures Load(user, st, codec, FetchFailed, false) == Loaded(Some(u), st)
  {
    assert codec.serialize(u) != "" && codec.parse(codec.serialize(u)) == Parsed(Some(u));
  }

  /** With the request failing and no usable stored user, the page keeps the
      user it had and storage is unchanged. */
  lemma LoadWithoutStoredUser(user: Option<User>, st: Store, codec: Codec, cancelled: bool)
    requires !Present(GetItem(st, UserKey)) || codec.parse(st[UserKey]) == Malformed
    ensures Load(user, st, codec, FetchFailed, cancelled) == Loaded(user, st)
  {
  }

  // ---------------------------------------------------------------- tabs

  datatype Tab = ProfileTab | OrdersTab | ReordersTab

  /** The tab shown when the page opens. */
  function InitialTab(): Tab { ProfileTab }

  /** The tab buttons, in the order they are laid out. */
  const TabButtons: seq<Tab> := [ProfileTab, OrdersTab, ReordersTab]

  /** What the content area can show. */
  datatype Panel = NotLoggedIn | Details(rows: seq<Row>) | OrdersPlaceholder | ReordersPlaceholder

  /** The content area: three independent `activeTab === ...` conditionals,
      rendered one after the other. The profile conditional shows the
      details of a signed-in user and a sign-in prompt otherwise. */
  function Panels(active: Tab, user: Option<User>, isValid: string -> bool, localize: string -> string): (r: seq<Panel>)
    ensures |r| == 1
    ensures active == ProfileTab <==> (r[0].NotLoggedIn? || r[0].Details?)
    ensures active == OrdersTab <==> r[0].OrdersPlaceholder?
    ensures active == ReordersTab <==> r[0].ReordersPlaceholder?
    ensures r[0].NotLoggedIn? <==> active == ProfileTab && user.None?
  {
    var profile :=
      if active == ProfileTab then
        [if user.None? then NotLoggedIn else Details(DetailRows(user.value, isValid, localize))]
      else [];
    var orders := if active == OrdersTab then [OrdersPlaceholder] else [];
    var reorders := if active == ReordersTab then [ReordersPlaceholder] else [];
    assert active.ProfileTab? || active.OrdersTab? || active.ReordersTab?;
    profile + orders + reorders
  }

  /** The page opens on the profile tab: a signed-in user's details, or the
      sign-in prompt when there is no user. */
  lemma OpensOnProfile(user: Option<User>, isValid: string -> bool, localize: string -> string)
    ensures user.None? ==> Panels(InitialTab(), user, isValid, localize) == [NotLoggedIn]
    ensures user.Some? ==>
              Panels(InitialTab(), user, isValid, localize) == [Details(DetailRows(user.value, isValid, localize))]
  {
  }

  /** `activeTab === tab.id`: whether a tab's button is highlighted. */
  predicate IsActive(active: Tab, tab: Tab) {
    active == tab
  }

  /** Exactly one tab button is highlighted as active, whichever tab that is. */
  lemma ExactlyOneActiveButton(active: Tab)
    ensures exists i :: 0 <= i < |TabButtons| && IsActive(active, TabButtons[i])
    ensures forall i, j ::
              (0 <= i < |TabButtons| && 0 <= j < |TabButtons|
               && IsActive(active, TabButtons[i]) && IsActive(active, TabButtons[j])) ==> i == j
  {
    var i := match active case ProfileTab => 0 case OrdersTab => 1 case ReordersTab => 2;
    assert IsActive(active, TabButtons[i]);
  }
}
