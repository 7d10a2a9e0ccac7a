# Movie watchlist: a verified model of the request handlers

This project models the watchlist web application: users register, confirm their email
through a signed link, log in, and keep a list of movies that they add, edit, rate and mark
as watched. The model covers the request handlers (`movie_library/routes.py`), the form layer
they rely on (`movie_library/forms.py`) and the stored records (`movie_library/models.py`).

Modules:

- `Wrappers` (`wrappers.dfy`): `Option` and `Result`.
- `PyStr` (`pystr.dfy`): the Python built-ins the forms and routes use. These are
  `str.isspace`, `strip()`, `split("\n")`, `"\n".join(...)` and `int(s)` for a string.
  `int` skips a narrower set of whitespace than `strip()`, and the model keeps that difference.
  `IntToString` is `str(n)`, kept as the reference that `ParseInt` reads back.
- `Models` (`models.dfy`, for `movie_library/models.py`): the `Movie` and `User` records, their `id` accessors, their
  constructors with defaults, and the `current_day`/`current_year` clock reading taken at import.
- `Forms` (`forms.dfy`, for `movie_library/forms.py`): `StringListField` is a class with a `data` field. `ProcessFormdata`
  is a method and `Value` (`_value`) a function. The module also holds the movie form with
  its inclusive year range, the registration checks including `validate_email`, and the
  login form's validity.
- `Routes` (`routes.dfy`, for `movie_library/routes.py`): the class `Watchlist` holds the `users` table, the `movie` table
  (both maps from id to record) and one client's `session` (a map from key to string).
  Its methods are the handlers. Each states its response and its whole new state. A
  handler that writes names in its `modifies` clause the fields it may change: one field,
  except `AddMovie`, which writes `movies` and `users`. `Index` and `ShowMovie` have no
  `modifies` clause because they write nothing. `Valid()` is the store invariant:
  - every record is filed under its own id;
  - no two users share an email, which `validate_email` keeps true;
  - every id in a user's `movies` list names a stored movie;
  - `currentYear` is the year of the single clock reading `currentDay`.

Foreign pieces are parameters:
- The password-hash check is the constant `checkPassword` of the store. `Register` receives
  the hash computed for the password, with `checkPassword(hash, password)` as its
  precondition. This is the law `Check(Hash(p), p)`; the salt is random.
- Loading a confirmation token gives a `TokenLoad`: the email, `Expired`, `BadSignature` or
  another error. Its signature and 3600-second age limit belong to the token library.
- New ids (uuid4) are arguments that are not yet keys.
- The clock is read once. `current_day` is the constructor's `importedAt`, and
  `current_year` is its year.

Behaviour of the code that the model keeps as written:
- Editing an id that no movie has makes `Movie(**None)` raise `TypeError`, which is a server
  error and not a 404, unlike the movie detail page. It happens before anything is written.
- A `rating` argument that is not an integer makes `int()` raise `ValueError`. A missing one
  raises `TypeError`. Both are server errors rather than form errors, and neither writes.
- Rating or watching an id that no movie has updates nothing and still redirects to the
  movie page.
- An unconfirmed user who logs in gets the login page rendered again, not a redirect.
- `watch_today` writes the import-time `current_day`, not the time of the request.
- No handler checks who owns a movie. Any signed-in user may view, edit, rate or watch any
  movie id, and the model keeps it that way.
- When a handler raises after changing the session (`logout` with a key missing), the
  changes made before the exception stay. The framework saves the session while it builds
  the error response.

## Model

| member | source | states |
|---|---|---|
| `Routes.LoginRequired` | movie_library/routes.py:20-27 | the wrapped route runs exactly when the session has a non-empty email; otherwise the answer is a redirect to login |
| `Routes.FindByEmail` | movie_library/routes.py:105 | with unique emails, finds the user holding the email, and `None` exactly when no user does |
| `Routes.Confirmed` | movie_library/routes.py:77-95 | a loaded token confirms exactly the user with its email and changes no other field or user; a failed load changes nothing |
| `Routes.ConfirmIdempotent` | movie_library/routes.py:80-82 | confirming again with the same token changes nothing more |
| `Routes.Watchlist.ConfirmEmail` | movie_library/routes.py:73-95 | writes only `users`, as `Confirmed` says; the notice tells the outcomes apart; every path redirects to login; the store invariant is kept |
| `Routes.Authenticate` | movie_library/routes.py:105-130 | unknown email, unconfirmed, or wrong password, each exactly when it applies; success only for a confirmed user whose hash checks |
| `Routes.UnconfirmedIgnoresPassword` | movie_library/routes.py:112-130 | an unconfirmed user is refused whatever the password and whatever the hash checker |
| `Routes.RegisteredConfirmedUserSignsIn` | movie_library/routes.py:105-119 | a newly registered user cannot sign in; after confirmation, the registered password signs them in |
| `Routes.Watchlist.Register` | movie_library/routes.py:39-68 | a signed-in client is sent to the index; an invalid form changes nothing; otherwise exactly one unconfirmed user with no movies is inserted and the token is issued for its email; emails stay unique |
| `Routes.Watchlist.Login` | movie_library/routes.py:98-132 | the modelled session keys change only when a confirmed user's password checks, and then get that user's id, email and name; each failure leaves them unchanged |
| `Routes.SignIn` | movie_library/routes.py:117-119 | adds exactly `user_id`, `email`, `name` from the user and keeps every other key |
| `Routes.SignOut` | movie_library/routes.py:137-140 | removes exactly the three identity keys and keeps every other value, leaving no identity |
| `Routes.SignInSignOut` | movie_library/routes.py:117-140 | logging out after logging in gives the session logout alone would give |
| `Routes.Watchlist.Logout` | movie_library/routes.py:135-141 | with all three keys present, the session becomes `SignOut` of it; a missing key raises `KeyError` and keeps the earlier deletions |
| `Routes.ToggledTheme` | movie_library/routes.py:245-250 | `dark` becomes `light`, anything else (unset included) becomes `dark`; no other key changes |
| `Routes.ToggleTwice` | movie_library/routes.py:245-250 | toggling twice from `dark` or `light` restores the session |
| `Routes.ToggleTwiceOther` | movie_library/routes.py:245-250 | toggling twice from any other theme, or none, ends at `light` |
| `Routes.ThemeIndependentOfIdentity` | movie_library/routes.py:137-140 | the theme survives logout, and toggling neither grants nor removes the identity |
| `Routes.Watchlist.ToggleTheme` | movie_library/routes.py:243-252 | the session becomes `ToggledTheme` of it and the client goes back to `current_page`; the route is not guarded |
| `Routes.Listing` | movie_library/routes.py:147-152 | exactly the stored movies whose id occurs in the list, each once, none from outside it |
| `Routes.Watchlist.Index` | movie_library/routes.py:144-154 | guarded; a session email no user has raises `TypeError`; otherwise shows exactly the owner's stored movies, once each; writes nothing |
| `Routes.Watchlist.ShowMovie` | movie_library/routes.py:180-189 | guarded; the stored movie under the id, or 404; writes nothing |
| `Routes.Watchlist.AddMovie` | movie_library/routes.py:157-177 | guarded; a valid form inserts one movie with the given title, director and year and defaults, then appends its id once to the end of the session user's list; no other movie or user changes |
| `Routes.Edited` | movie_library/routes.py:200-207 | only `cast`, `tags`, `series`, `description`, `video_link` differ from the loaded movie, and they come from the form |
| `Routes.Watchlist.EditMovie` | movie_library/routes.py:192-211 | guarded; a missing id raises before any write; an invalid form writes nothing; a valid one replaces the movie by `Edited` |
| `Routes.Watchlist.RateMovie` | movie_library/routes.py:214-219 | guarded; a missing or non-integer rating raises and writes nothing, and so does an integer outside 64 bits (`OverflowError` from the store's encoder); otherwise only `rating` changes |
| `Routes.Watchlist.WatchToday` | movie_library/routes.py:222-226 | guarded; only `last_watched` changes, always to the import-time `current_day` as the store keeps it, to the millisecond |
| `Routes.Watchlist.constructor` | movie_library/models.py:4-5 | the store starts empty; `current_day` and `current_year` are fixed from one clock reading |
| `Models.NewMovie` | movie_library/models.py:9-20 | a new movie has the given fields, empty `cast`/`series`/`tags`, rating 0, and no `last_watched`, `description` or `video_link`; `id` gives back its `_id` |
| `Models.StoredDateTime` | movie_library/routes.py:225 | the stored `datetime` drops its microseconds below a whole millisecond and keeps every other field; one already on a millisecond is kept as is |
| `Models.NewUser` | movie_library/models.py:34-40 | a new user is unconfirmed and owns no movies; `id` gives back its `_id` |
| `Forms.ParseLines` | movie_library/forms.py:37-42 | `[]` for no value or an empty first value; otherwise entry i is the i-th newline-free line of the text stripped, so there are newline count plus one entries, each stripped and without newline |
| `Forms.StringListField.ProcessFormdata` | movie_library/forms.py:37-42 | the field's data becomes `ParseLines` of the submitted values |
| `Forms.StringListField.Value` | movie_library/forms.py:31-35 | empty text for missing or empty data; otherwise, for stripped newline-free entries, text whose lines are exactly the entries |
| `Forms.ValueRoundTrip` | movie_library/forms.py:31-42 | clean data shown and submitted again comes back unchanged, except `[""]`, which comes back as `[]` |
| `Forms.FormdataRoundTrip` | movie_library/forms.py:31-42 | the same round trip for any data `process_formdata` produced |
| `Forms.ParseLinesBlank` | movie_library/forms.py:39-40 | `[""]` arises exactly from a non-empty, newline-free, whitespace-only submission |
| `Forms.ValidateYear` | movie_library/forms.py:21-25 | a year is accepted exactly when it was given, parses as an integer and lies in 1900..current_year |
| `Forms.YearRangeInclusive` | movie_library/forms.py:21-25 | the written year `y` is accepted exactly when 1900 <= y <= current_year, both ends included |
| `Forms.YearRequired` | movie_library/forms.py:23 | a missing or empty year is always rejected |
| `Forms.CheckMovieForm` | movie_library/forms.py:10-25 | the movie form validates exactly when title, director and year pass; otherwise its errors are exactly the failing fields |
| `Forms.TextFieldData` | movie_library/forms.py:49-50 | a description or video link field takes the first submitted value, or keeps the loaded one when nothing was submitted |
| `Forms.InputPresent` | movie_library/forms.py:13 | `InputRequired`: a value was submitted and the first one is not empty |
| `Forms.LoginFormValid` | movie_library/forms.py:81-84 | the login form validates exactly when submitted with a non-empty, well-formed email and a non-empty password |
| `Forms.ValidateEmail` | movie_library/forms.py:69-77 | an email is rejected exactly when some user already has it |
| `Routes.ValidateEmailFindsNone` | movie_library/forms.py:75-77 | with unique emails, `validate_email` passes exactly when `find_one` by that email finds no user |
| `Forms.RegisterErrors` | movie_library/forms.py:56-67 | each registration field fails exactly on its own rule: email missing, malformed or taken; password under 8 characters; confirmation missing or different; name missing; reCAPTCHA failed |
| `Forms.AcceptedRegistration` | movie_library/forms.py:56-77 | an accepted registration has an unused email, a password of at least 8 characters and an equal confirmation |
| `PyStr.Strip` | movie_library/forms.py:40 | removes only surrounding whitespace, leaves none at either end, and keeps a stripped string unchanged |
| `PyStr.Split` | movie_library/forms.py:40 | one piece more than there are separators, none containing the separator |
| `PyStr.Join` | movie_library/forms.py:33 | no parts give the empty text; separator-free parts are joined with exactly one separator between each two |
| `PyStr.JoinSplit` | movie_library/forms.py:33 | joining the pieces of a split gives the string back |
| `PyStr.SplitJoin` | movie_library/forms.py:40 | splitting a join of separator-free parts gives the parts back |
| `PyStr.ParseInt` | movie_library/routes.py:217 | a string holding one of U+001C to U+001F, which `int` does not skip as whitespace, never parses; a string that parses holds a digit |
| `PyStr.ParseIntToString` | movie_library/routes.py:217 | `int()` reads back every integer written in decimal |
| `PyStr.ParseIntNeedsDigit` | movie_library/routes.py:217 | a string without any digit, `"abc"` or `""` for example, is not an integer |

## Left out

- `movie_library/static/js/format.js` is not part of this model. It is browser UI code that posts to a route the source has commented out.
- `movie_library/__init__.py` and `movie_library/config.py` are not part of this model. They are the app factory, database client, mail setup and environment configuration.
- Password hashing internals (PBKDF2 with a random salt) are left out. Hashing is the hash argument of `Register`, and checking is the `checkPassword` oracle.
- Token signing, the 3600-second age limit and the purpose salt are left out. They belong to the token library, whose result is the `TokenLoad` parameter.
- Mail sending, template rendering, flash message text, `url_for`, and the `inject_current_year` context processor are left out because they are presentation. Responses only say where a request went.
- The `Email()` validator, the reCAPTCHA check, the CSRF check and the request method are foreign library behaviour. They appear as booleans in the form data.
- Store or mail outages, and a crash between `add_movie`'s two writes, are left out. Every store call is modelled as succeeding.
- Flash messages and the CSRF token are left out of the session. `flash()` appends to the session's `_flashes` list: in every `confirm_email` outcome, in the three `login` failures, and after a successful `register` or `add_movie`. The form library stores the CSRF token in the session too. A contract that says the session is unchanged means the keys the model keeps: the identity keys, `theme` and any other string key.
- Concurrent requests and other clients' sessions are left out. The model has one session and runs requests one after another.
- uuid generation is left out: new ids are arguments that are not yet keys.
- Routes.Listing: fixes the order to the first occurrence of each id in the user's list. The store's own order is not specified, so the contract states only which movies appear, each once.
- Routes.Watchlist.ToggleTheme: takes `current_page` as given. What the framework's `redirect` does with a missing argument depends on its version.
- Routes.Watchlist.constructor: `forms.py` and `models.py` each read the clock at import. The model uses one reading for both, so they never differ by a year boundary.
- PyStr.ParseInt: accepts only ASCII digits. Python's `int` also accepts other Unicode decimal digits.
- PyStr.ParseInt: has no limit on the number of digits. Python 3.11 and later raise `ValueError` for more than 4300 digits.
- Forms.TextFieldData: follows the WTForms 3 rule that a field absent from the submission keeps the loaded value. Older WTForms would store `""` when the loaded value was `None`.
- The `print(e)` in `confirm_email`'s catch-all branch (movie_library/routes.py:94) is left out because it only writes to the console.
