# Pharmacy frontend session store — a Dafny model

This project models the client-side logic of a pharmacy web frontend.

- **The session store (`AuthProvider`).** It holds the signed-in `user`, the session `token` and an `initialized` flag. It keeps them in step with two local-storage slots, `session_token` and `pharmacy_user`. Three operations change it: the mount effect that hydrates it from storage, `setAuth` and `clearAuth`. A fourth, `useAuth`, fails fast when there is no provider above the caller.
- **The profile page.** This covers the heading name derived from first and last name, the `|| "Not set"` display fallback, the guard branches of `formatDate`, the tab panels, and the load effect. The load effect fetches the signed-in user and falls back to the stored copy. It writes the same `pharmacy_user` slot as the store.
- **The registration page.** This covers the form record with its initial values, the single-field `handleChange` update, and the `loading` protocol around submission.

Every operation is a pure function from values to values. A session and a storage map go to a new session and a new storage map. Storage is a `map<string, string>`. A user record is a map of optional string fields. `JSON.stringify`/`JSON.parse` are passed in as a `Codec` value. So are date validity and locale rendering, and the outcomes of the network requests. The lemmas that need JSON round-tripping take it as the hypothesis `Codec.RoundTrips()`.

Modules and files:

- `wrappers.dfy`: `Option` and `Result`.
- `users.dfy`: the user record.
- `json.dfy`: the codec.
- `storage.dfy`: the storage slots.
- `text.dfy`: truthiness and `String.prototype.trim`.
- `auth_provider.dfy`: the session store.
- `session_trace.dfy`: runs of store events.
- `profile_page.dfy`: the profile page.
- `register_page.dfy`: the registration page.

Points where the code's behaviour is easy to misread:

- Hydration restores a stored token only when it is non-empty, not merely when it is present (`if (storedToken)`).
- When the stored user does not parse, hydration does not reset the session. The token it already set is kept.
- `setAuth` leaves `initialized` as it was. It does not set the flag.
- Besides "uninitialized", "anonymous" and "authenticated", the code can reach a fourth phase: a user restored with no token. This happens when storage holds `pharmacy_user` without a non-empty `session_token`. The store produces that storage itself when `setAuth` is called with the empty token and the page is then reloaded. The profile page's load can also write `pharmacy_user` with no token stored, if `getLoggedInUserApi` succeeds without one.

## Model

| member | source | states |
|---|---|---|
| AuthProvider.Mount | components/auth/AuthProvider.tsx:30-32 | The provider starts with no user, no token and `initialized` false, which is the uninitialized phase. |
| AuthProvider.Hydrate | components/auth/AuthProvider.tsx:35-49 | Hydration only reads storage and always ends initialized, never in the uninitialized phase. It changes the token only to a non-empty stored token. A non-empty stored user text that parses becomes the user, a stored `null` included; the user changes in no other way. |
| AuthProvider.HydrateUser | components/auth/AuthProvider.tsx:40-43 | The stored user is taken exactly when its text is non-empty and parses (a stored `null` clears the user). A missing, empty or unparsable text keeps the user. |
| AuthProvider.HydrateToken | components/auth/AuthProvider.tsx:39-42 | The stored token is restored exactly when it is non-empty. An empty or missing token leaves the token as it was. |
| AuthProvider.HydrateMalformedUser | components/auth/AuthProvider.tsx:42-47 | A non-empty token next to a stored user whose parse throws gives partial recovery: the token is set, the user is unchanged and the session is initialized. |
| AuthProvider.RestartEmpty | components/auth/AuthProvider.tsx:39-47 | Hydrating a fresh mount from storage without either slot gives the anonymous session. |
| AuthProvider.SetAuth | components/auth/AuthProvider.tsx:51-59 | Sets user and token together and writes `session_token := t` and `pharmacy_user := serialize(u)`. It keeps `initialized` and every other storage slot, and it authenticates an initialized session. |
| AuthProvider.ClearAuth | components/auth/AuthProvider.tsx:61-68 | Drops user and token and removes both slots. It keeps `initialized` and every other slot, and leaves an initialized session anonymous. |
| AuthProvider.ClearAuthIdempotent | components/auth/AuthProvider.tsx:61-68 | Applying `clearAuth` twice gives the same session and storage as applying it once. |
| AuthProvider.UseAuth | components/auth/AuthProvider.tsx:85-91 | Succeeds exactly when a provider value is present and returns that value. Otherwise it fails with the fixed message; it never returns a missing context. |
| AuthProvider.SetAuthThenRestart | components/auth/AuthProvider.tsx:39-57 | After `setAuth(u, t)` with a non-empty token, a reload restores token `t`. It restores the user to whatever parsing `serialize(u)` yields, or `null` if that parse throws. This holds given that `serialize(u)` is non-empty, as `JSON.stringify` of an object always is. |
| AuthProvider.SetAuthRoundTrip | components/auth/AuthProvider.tsx:39-57 | With a round-tripping codec, a reload after `setAuth(u, t)` with non-empty `t` gives exactly the authenticated session `(u, t, initialized)`. |
| AuthProvider.EmptyTokenNotRestored | components/auth/AuthProvider.tsx:42-56 | `setAuth(u, "")` holds the token `""` in memory, but a reload restores no token. The round trip needs a non-empty token. |
| AuthProvider.ClearAuthThenRestart | components/auth/AuthProvider.tsx:39-67 | A reload after `clearAuth` gives the anonymous session. |
| AuthProvider.UserWithoutTokenReachable | components/auth/AuthProvider.tsx:39-43 | With a round-tripping codec: a stored user with no non-empty token beside it is restored on its own, which reaches the user-without-token phase. |
| AuthProvider.EmptyTokenSignInLeavesUserWithoutToken | components/auth/AuthProvider.tsx:42-57 | With a round-tripping codec: `setAuth(u, "")` followed by a reload restores the user without a token, which is the user-without-token phase. |
| SessionTrace.InitializedMonotone | components/auth/AuthProvider.tsx:32-67 | After any run of events, `initialized` is true exactly when it was true before or the run hydrated. No event turns it back to false. |
| SessionTrace.ApplyKeepsPersisted | components/auth/AuthProvider.tsx:35-67 | With a round-tripping codec: each in-step event keeps "a reload restores the in-memory user and token". The in-step events are hydration, `setAuth` with a non-empty token, `clearAuth`, and a profile load that writes nothing. |
| SessionTrace.PersistedAlongRun | components/auth/AuthProvider.tsx:35-67 | With a round-tripping codec, that property holds after every run of in-step events that starts with it. |
| SessionTrace.ProfileLoadBreaksPersisted | app/profile/page.tsx:33-38 | With a round-tripping codec: the profile page's successful load overwrites the stored user without telling the store. A reload then restores the fetched user, not the one in memory. |
| SessionTrace.SignInSignOutScenario | components/auth/AuthProvider.tsx:35-67 | From empty storage: hydration gives anonymous. Signing in as Jane with `tok-123` gives exactly that user and token. Signing out gives anonymous again, still initialized. |
| Text.TrimStart | app/profile/page.tsx:63 | The result is a suffix of the input, everything cut off is white space, and the result does not start with white space. |
| Text.TrimEnd | app/profile/page.tsx:63 | The result is a prefix of the input, everything cut off is white space, and the result does not end with white space. |
| Text.Trim | app/profile/page.tsx:63 | `trim` leaves no white space at either end. The result is empty exactly when the input is all white space. |
| Text.TrimEndsFacts | app/profile/page.tsx:63 | Cutting white space off both ends gives a trimmed string, empty exactly when the input is all white space. |
| Text.TrimIsInfix | app/profile/page.tsx:63 | The result of `trim` is an infix of the input with only white space before and after it. |
| Text.TrimKeepsTrimmed | app/profile/page.tsx:63 | `trim` leaves a string without white space at its ends unchanged. |
| Text.TrimIdempotent | app/profile/page.tsx:63 | Trimming twice is trimming once. |
| ProfilePage.FullName | app/profile/page.tsx:61-64 | With neither name part non-empty, the heading is `Your profile`. Otherwise it has no white space at either end and is empty exactly when both parts are white space only. |
| ProfilePage.FullNameIsTrimmedJoin | app/profile/page.tsx:61-64 | With some name part given, the heading is `trim(first + " " + last)` with a missing part read as empty: an infix of the joined name with only white space around it, and no white space at either end. |
| ProfilePage.FullNameOfTrimmedParts | app/profile/page.tsx:61-64 | A non-empty first and last name without surrounding white space are shown as `first last`. |
| ProfilePage.FormatDate | app/profile/page.tsx:12-21 | A missing, empty or unparsable date shows `Not set`. A valid one shows its locale rendering. |
| ProfilePage.DetailRows | app/profile/page.tsx:119-220 | The details panel has one row per layout line, captioned in page order: Name, Email, Phone, Gender, Date of birth, Joined, Address line 1, Address line 2, City, County, Postcode, Country. |
| ProfilePage.RenderLine | app/profile/page.tsx:121-219 | Each line keeps its caption. The name line shows the heading, or `Not set` when the heading is empty. A text line shows its field when non-empty and `Not set` otherwise. A date line shows `formatDate` of its field. |
| ProfilePage.DateRowsFormat | app/profile/page.tsx:153-167 | The date-of-birth and joined lines show `formatDate(dob)` and `formatDate(createdAt)`. A date line whose field is missing or empty shows `Not set`. |
| ProfilePage.TextRowsFallBack | app/profile/page.tsx:133-219 | Each plain text row shows its field when the field is non-empty and `Not set` otherwise. |
| ProfilePage.NameRowFallBack | app/profile/page.tsx:61-127 | The name row shows `Not set`, with an empty heading, exactly when a name part is given but all parts are white space. Otherwise it shows the non-empty heading. |
| ProfilePage.DetailRowsNeverBlank | app/profile/page.tsx:119-220 | No row of the details panel is blank, provided date rendering never yields the empty string. |
| ProfilePage.Load | app/profile/page.tsx:27-59 | Once cancelled, nothing changes. A fetched user is shown and written to `pharmacy_user`. On failure, storage is only read; without cancellation a non-empty stored user that parses becomes the user (a stored `null` included), and the user changes in no other way. The token slot and every other slot are never touched. |
| ProfilePage.LoadFallsBackToStoredUser | app/profile/page.tsx:40-50 | When the request fails, the page shows the stored user the store last wrote, given a round-tripping codec and no cancellation. |
| ProfilePage.LoadWithoutStoredUser | app/profile/page.tsx:40-50 | When the request fails and the stored user is empty, missing or unparsable, the page keeps its user and no error escapes. |
| ProfilePage.Panels | app/profile/page.tsx:109-252 | The three tab conditionals render exactly one panel, the one of the active tab. The sign-in prompt appears exactly on the profile tab without a user. |
| ProfilePage.OpensOnProfile | app/profile/page.tsx:24-116 | The page opens on the profile tab: the sign-in prompt without a user, the details panel with one. |
| ProfilePage.ExactlyOneActiveButton | app/profile/page.tsx:86-106 | Under the highlight test `activeTab === tab.id`, exactly one tab button is highlighted, whichever tab is active. |
| RegisterPage.InputNamesDesignateFields | app/register/page.tsx:80-256 | Each control's `name` designates exactly the payload field it edits. |
| RegisterPage.InitialForm | app/register/page.tsx:13-27 | Every field starts empty except gender (`male`) and country (`UK`). |
| RegisterPage.HandleChange | app/register/page.tsx:34-39 | The named field takes the new value and every other field keeps its value. |
| RegisterPage.ChangesCommute | app/register/page.tsx:37-38 | Edits to two different fields commute. |
| RegisterPage.LastChangeWins | app/register/page.tsx:37-38 | A second edit to the same field overrides the first. |
| RegisterPage.ChangeToSameValue | app/register/page.tsx:37-38 | Writing a field's own value back leaves the form unchanged. |
| RegisterPage.Open | app/register/page.tsx:31-32 | The page opens with the initial form and not loading. |
| RegisterPage.Submit | app/register/page.tsx:41-53 | Nothing is sent while loading (button disabled, line 263) or while a `required` control is empty (lines 84-252). Otherwise the form is sent with `loading` raised and lowered on either outcome, and the form is kept. Success toasts the confirmation and navigates to `/login`. Failure navigates nowhere and shows the non-empty error message or `Registration failed`.
| RegisterPage.SubmitReenables | app/register/page.tsx:43-52 | From an idle page, a submission goes ahead exactly when the required fields are filled. A settled submission returns the page to its state before submitting, so the next submission is accepted. |
| RegisterPage.OpeningFormNotSent | app/register/page.tsx:13-27 | The form as the page opens has empty required fields, so submitting it sends nothing. |

## Left out

- React rendering, styling, the `Container`/`Link` components and the toast UI: presentation only. The markup attributes that gate submission, `disabled` and `required`, are modelled in `Submit`. Toasts appear as values of the `Toast` type.
- `app/layout.tsx` only mounts the provider around the page tree. `lib/types.ts` only declares a type. Neither has logic to model.
- `JSON.stringify`/`JSON.parse`: runtime built-ins. They are supplied as a `Codec`. Parsing to a JSON value that is neither `null` nor an object is not distinguished from parsing to a record.
- `localStorage` exceptions (storage disabled, quota exceeded) and the `typeof window` server-render checks are not modelled: storage is always an available map.
- `useEffect` scheduling, React state batching and async interleaving are not modelled. Each effect is one atomic step, and cancellation is the boolean `cancelled` as it stands when the request settles.
- `new Date(...)` and `toLocaleDateString` are parameters of `formatDate` (`isValid`, `localize`). Date parsing and locale formatting are not modelled.
- `getLoggedInUserApi`, `registerPatientApi` and the router: network and navigation. Their outcomes are inputs (`Fetch`, `Response`), and navigation is the target route as a value.
- Field values of a user record are strings. The source's `[key: string]: any` also allows non-string values, which the model does not represent.
- RegisterPage.HandleChange takes a field of the payload, not an arbitrary event `name`. Every control on the page names one of these fields (see `InputNamesDesignateFields`). An unknown name would add an extra key in the source.
- RegisterPage.Submit: models the browser's constraint validation only as "every `required` control is non-empty". The `type="email"` format check (line 107) and the date control's own validation are not modelled, so the model sends some forms the browser would refuse.
- Strings are sequences of Unicode scalar values, while JavaScript strings are UTF-16 code units that may hold a lone surrogate (for instance from `JSON.parse`). Truthiness and `trim` are unaffected, because every code point `trim` strips lies in the Basic Multilingual Plane.
