/**
 * The request handlers of the watchlist over an in-memory store: a `users`
 * table and a `movie` table keyed by id, and the session of one client.
 *
 * Each handler is a method of `Watchlist`. Its response says where the
 * request went: a redirect, a rendered page, a 404, or an unhandled
 * exception (`ServerError`). Flash messages are returned as notices where
 * they tell outcomes apart; the session's flash list itself is not part of
 * the modelled session. When a handler raises after changing the session,
 * those changes stay: the framework still saves the session while it
 * produces the error response.
 */
module Routes {
  import opened Wrappers
  import opened PyStr
  import opened Models
  import opened Forms

  /** A client's session: a dictionary of string values. */
  type Session = map<string, string>

  /** The session keys that make up the signed-in identity. */
  const IdentityKeys: set<string> := {"user_id", "email", "name"}

  /** `session.get("email")` is truthy: present and not empty. */
  predicate HasIdentity(s: Session) {
    "email" in s && s["email"] != ""
  }

  datatype Page = RegisterPage | LoginPage | IndexPage | NewMoviePage | MovieDetailsPage | MovieFormPage

  /** The exception a handler raises and does not catch. */
  datatype Crash = KeyError(key: string) | TypeError | ValueError | OverflowError

  /** The integers the document store's encoding holds: signed 64-bit. */
  predicate FitsInt64(n: int) {
    -0x8000_0000_0000_0000 <= n < 0x8000_0000_0000_0000
  }

  datatype Response =
    | RedirectToLogin
    | RedirectToIndex
    | RedirectToRegister
    | RedirectToMovie(movieId: string)
    | RedirectTo(url: string)
    | Render(page: Page)
    | NotFound
    | ServerError(cause: Crash)

  /** What loading a confirmation token gives: the bound email or the kind of failure. */
  datatype TokenLoad = Loaded(email: string) | Expired | BadSignature | OtherError

  /** The flash message of `confirm_email`. */
  datatype ConfirmNotice = EmailConfirmed | NoMatchingUser | LinkExpired | LinkInvalid | ConfirmError

  /** The outcome of checking a login's credentials. */
  datatype AuthOutcome = NoSuchAccount | NotConfirmed | WrongPassword | Authenticated(userId: string)

  /**
   * The `login_required` decorator: the wrapped route runs (`None`) only
   * when the session carries an email; otherwise the wrapper answers with a
   * redirect to the login page.
   */
  function LoginRequired(s: Session): (r: Option<Response>)
    ensures r == None <==> HasIdentity(s)
    ensures r != None ==> r == Some(RedirectToLogin)
  {
    var email := if "email" in s then Some(s["email"]) else None;
    if email.Some? && email.value != "" then None else Some(RedirectToLogin)
  }

  /** Every user is stored under its own id. */
  ghost predicate UsersKeyed(users: map<string, User>) {
    forall id :: id in users ==> users[id].Id() == id
  }

  /** Every movie is stored under its own id. */
  ghost predicate MoviesKeyed(movies: map<string, Movie>) {
    forall id :: id in movies ==> movies[id].Id() == id
  }

  /** No two users share an email. */
  ghost predicate EmailsUnique(users: map<string, User>) {
    forall a, b :: a in users && b in users && users[a].email == users[b].email ==> a == b
  }

  /** Every id in a user's `movies` list names a stored movie. */
  ghost predicate OwnedMoviesStored(users: map<string, User>, movies: map<string, Movie>) {
    forall uid, i :: uid in users && 0 <= i < |users[uid].movies| ==> users[uid].movies[i] in movies
  }

  /** `users.find_one({"email": email})`: the id of the user with that email. */
  function FindByEmail(users: map<string, User>, email: string): (r: Option<string>)
    requires EmailsUnique(users)
    ensures r.Some? ==> r.value in users && users[r.value].email == email
    ensures r.None? <==> !EmailRegistered(users, email)
  {
    if exists id :: id in users && users[id].email == email then
      var id :| id in users && users[id].email == email;
      Some(id)
    else
      None
  }

  /** `validate_email` passes exactly when `find_one` by that email finds no user. */
  lemma ValidateEmailFindsNone(users: map<string, User>, email: string)
    requires EmailsUnique(users)
    ensures ValidateEmail(users, email) <==> FindByEmail(users, email).None?
  {
  }

  /**
   * The users table after `confirm_email` with the given token: the user
   * whose email the token carries becomes confirmed; nothing else changes,
   * and nothing at all when the token did not load.
   */
  function Confirmed(users: map<string, User>, token: TokenLoad): (r: map<string, User>)
    ensures r.Keys == users.Keys
    ensures forall id :: id in users ==> r[id] == users[id].(confirmed := r[id].confirmed)
    ensures forall id :: id in users ==>
              (r[id].confirmed <==> users[id].confirmed || (token.Loaded? && users[id].email == token.email))
    ensures !token.Loaded? ==> r == users
  {
    match token
    case Loaded(email) =>
      map id | id in users :: if users[id].email == email then users[id].(confirmed := true) else users[id]
    case _ => users
  }

  /** Confirming with the same token again changes nothing more. */
  lemma ConfirmIdempotent(users: map<string, User>, token: TokenLoad)
    ensures Confirmed(Confirmed(users, token), token) == Confirmed(users, token)
  {
    var once := Confirmed(users, token);
    var twice := Confirmed(once, token);
    forall id | id in users ensures twice[id] == once[id] {
    }
  }

  /**
   * The credential check of `login`: an unknown email, an unconfirmed user
   * (whose password is not looked at), a wrong password, or the id of the
   * confirmed user whose stored hash matches.
   */
  function Authenticate(users: map<string, User>, email: string, password: string,
                        check: (string, string) -> bool): (r: AuthOutcome)
    requires EmailsUnique(users)
    ensures r == NoSuchAccount <==> !EmailRegistered(users, email)
    ensures r == NotConfirmed <==> exists id :: id in users && users[id].email == email && !users[id].confirmed
    ensures r == WrongPassword <==>
              exists id :: id in users && users[id].email == email && users[id].confirmed && !check(users[id].password, password)
    ensures r.Authenticated? ==>
              && r.userId in users && users[r.userId].email == email
              && users[r.userId].confirmed && check(users[r.userId].password, password)
  {
    match FindByEmail(users, email)
    case None => NoSuchAccount
    case Some(id) =>
      if !users[id].confirmed then NotConfirmed
      else if check(users[id].password, password) then Authenticated(id)
      else WrongPassword
  }

  /** An unconfirmed user is turned away whatever password is given and however passwords are checked. */
  lemma UnconfirmedIgnoresPassword(users: map<string, User>, email: string,
                                   password1: string, check1: (string, string) -> bool,
                                   password2: string, check2: (string, string) -> bool)
    requires EmailsUnique(users)
    requires Authenticate(users, email, password1, check1) == NotConfirmed
    ensures Authenticate(users, email, password2, check2) == NotConfirmed
  {
  }

  /**
   * A user registered with a hash of `password` and then confirmed through
   * a token for their email signs in with that password.
   */
  lemma RegisteredConfirmedUserSignsIn(users: map<string, User>, id: string, name: string, email: string,
                                       password: string, hash: string, check: (string, string) -> bool)
    requires EmailsUnique(users)
    requires id !in users && !EmailRegistered(users, email)
    requires check(hash, password)
    ensures var registered := users[id := NewUser(id, name, email, hash)];
            EmailsUnique(registered) &&
            Authenticate(registered, email, password, check) == NotConfirmed &&
            EmailsUnique(Confirmed(registered, Loaded(email))) &&
            Authenticate(Confirmed(registered, Loaded(email)), email, password, check) == Authenticated(id)
  {
    var registered := users[id := NewUser(id, name, email, hash)];
    assert forall u :: u in registered && registered[u].email == email ==> u == id;
    var confirmed := Confirmed(registered, Loaded(email));
    assert confirmed[id].confirmed && confirmed[id].email == email;
    assert forall u :: u in confirmed && confirmed[u].email == email ==> u == id;
  }

  /** The session after a successful login: the user's id, email and name are stored. */
  function SignIn(s: Session, user: User): (r: Session)
    ensures r.Keys == s.Keys + IdentityKeys
    ensures r["user_id"] == user.Id() && r["email"] == user.email && r["name"] == user.name
    ensures forall k :: k in s && k !in IdentityKeys ==> r[k] == s[k]
    ensures HasIdentity(r) <==> user.email != ""
  {
    s["user_id" := user.Id()]["email" := user.email]["name" := user.name]
  }

  /** The session after `logout`: the identity keys are gone and every other key is kept. */
  function SignOut(s: Session): (r: Session)
    ensures r.Keys == s.Keys - IdentityKeys
    ensures forall k :: k in r ==> r[k] == s[k]
    ensures !HasIdentity(r)
  {
    s - IdentityKeys
  }

  /** Signing out after signing in leaves the session as it was, whatever identity it held. */
  lemma SignInSignOut(s: Session, user: User)
    ensures SignOut(SignIn(s, user)) == SignOut(s)
  {
  }

  /**
   * The session after `toggle_theme`: `"light"` when the theme was
   * `"dark"`, `"dark"` otherwise (unset included); every other key kept.
   */
  function ToggledTheme(s: Session): (r: Session)
    ensures r.Keys == s.Keys + {"theme"}
    ensures "theme" in s && s["theme"] == "dark" ==> r["theme"] == "light"
    ensures !("theme" in s && s["theme"] == "dark") ==> r["theme"] == "dark"
    ensures forall k :: k in s && k != "theme" ==> r[k] == s[k]
  {
    var current := if "theme" in s then Some(s["theme"]) else None;
    if current == Some("dark") then s["theme" := "light"] else s["theme" := "dark"]
  }

  /** Toggling twice from `"dark"` or `"light"` restores the session. */
  lemma ToggleTwice(s: Session)
    requires "theme" in s && (s["theme"] == "dark" || s["theme"] == "light")
    ensures ToggledTheme(ToggledTheme(s)) == s
  {
  }

  /** Toggling twice from any other theme, unset included, ends at `"light"`. */
  lemma ToggleTwiceOther(s: Session)
    requires !("theme" in s && (s["theme"] == "dark" || s["theme"] == "light"))
    ensures ToggledTheme(ToggledTheme(s)) == s["theme" := "light"]
  {
  }

  /** The theme survives logout, and toggling it neither signs anyone in nor out. */
  lemma ThemeIndependentOfIdentity(s: Session)
    ensures "theme" in s ==> "theme" in SignOut(s) && SignOut(s)["theme"] == s["theme"]
    ensures HasIdentity(ToggledTheme(s)) <==> HasIdentity(s)
  {
  }

  /**
   * `shown` lists exactly the stored movies whose id occurs in `ids`, each
   * once.
   */
  ghost predicate ListsExactly(shown: seq<Movie>, movies: map<string, Movie>, ids: seq<string>) {
    && (forall i :: 0 <= i < |shown| ==> shown[i].Id() in ids && shown[i].Id() in movies && movies[shown[i].Id()] == shown[i])
    && (forall id :: id in ids && id in movies ==> movies[id] in shown)
    && (forall i, j :: 0 <= i < j < |shown| ==> shown[i].Id() != shown[j].Id())
  }

  /**
   * The listing of `index`: the stored movies whose id is in `ids` (a
   * membership query), in the order their ids first occur.
   */
  function Listing(movies: map<string, Movie>, ids: seq<string>): (r: seq<Movie>)
    requires MoviesKeyed(movies)
    ensures ListsExactly(r, movies, ids)
  {
    if ids == [] then []
    else
      var init := ids[..|ids| - 1];
      var id := ids[|ids| - 1];
      var prev := Listing(movies, init);
      assert forall x :: x in init ==> x in ids;
      assert ids == init + [id];
      if id in movies && id !in init then prev + [movies[id]] else prev
  }

  /** The movie as `edit_movie` writes it back: the five edit fields from the form, the rest as loaded. */
  function Edited(m: Movie, form: ExtendedFormData): (r: Movie)
    ensures r.(cast := m.cast, tags := m.tags, series := m.series, description := m.description, videoLink := m.videoLink) == m
    ensures r.cast == ParseLines(form.cast) && r.tags == ParseLines(form.tags) && r.series == ParseLines(form.series)
    ensures r.description == TextFieldData(form.description, m.description)
    ensures r.videoLink == TextFieldData(form.videoLink, m.videoLink)
  {
    m.(cast := ParseLines(form.cast), tags := ParseLines(form.tags), series := ParseLines(form.series),
       description := TextFieldData(form.description, m.description),
       videoLink := TextFieldData(form.videoLink, m.videoLink))
  }

  /**
   * The store and one client's session. `currentDay` and `currentYear` are
   * the clock reading taken once at import; `checkPassword` is the
   * password-hash verifier.
   */
  class Watchlist {
    var users: map<string, User>
    var movies: map<string, Movie>
    var session: Session
    const currentDay: DateTime
    const currentYear: int
    const checkPassword: (string, string) -> bool

    ghost predicate Valid()
      reads this
    {
      && UsersKeyed(users)
      && EmailsUnique(users)
      && MoviesKeyed(movies)
      && OwnedMoviesStored(users, movies)
      && currentYear == CurrentYear(currentDay)
    }

    /** An empty store and a fresh session, with the clock read at `importedAt`. */
    constructor (importedAt: DateTime, check: (string, string) -> bool)
      ensures Valid()
      ensures users == map[] && movies == map[] && session == map[]
      ensures currentDay == importedAt && currentYear == importedAt.year && checkPassword == check
    {
      users, movies, session := map[], map[], map[];
      currentDay := importedAt;
      currentYear := CurrentYear(importedAt);
      checkPassword := check;
    }

    /**
     * `register`: a signed-in client is sent to the index; a form that does
     * not validate is shown again; otherwise an unconfirmed user without
     * movies is inserted under `newId` with the given password hash, and a
     * confirmation token is issued for (and mailed to) its email.
     */
    method Register(form: RegisterFormData, newId: string, passwordHash: string)
      returns (resp: Response, confirmationFor: Option<string>)
      requires Valid()
      requires newId !in users
      requires checkPassword(passwordHash, form.password)
      modifies this`users
      ensures Valid()
      ensures HasIdentity(session) ==>
                resp == RedirectToIndex && users == old(users) && confirmationFor == None
      ensures !HasIdentity(session) && !(form.submitted && RegisterErrors(old(users), form) == {}) ==>
                resp == Render(RegisterPage) && users == old(users) && confirmationFor == None
      ensures !HasIdentity(session) && form.submitted && RegisterErrors(old(users), form) == {} ==>
                && resp == RedirectToRegister
                && confirmationFor == Some(form.email)
                && users == old(users)[newId := NewUser(newId, form.name, form.email, passwordHash)]
    {
      if HasIdentity(session) {
        return RedirectToIndex, None;
      }
      if !form.submitted || RegisterErrors(users, form) != {} {
        return Render(RegisterPage), None;
      }
      AcceptedRegistration(users, form);
      users := users[newId := NewUser(newId, form.name, form.email, passwordHash)];
      resp, confirmationFor := RedirectToRegister, Some(form.email);
    }

    /**
     * `confirm_email`: with a token that loads, the user holding its email
     * becomes confirmed; any other outcome writes nothing. Every path ends
     * at the login page.
     */
    method ConfirmEmail(token: TokenLoad) returns (resp: Response, notice: ConfirmNotice)
      requires Valid()
      modifies this`users
      ensures Valid()
      ensures resp == RedirectToLogin
      ensures users == Confirmed(old(users), token)
      ensures notice == match token
                        case Loaded(email) => if EmailRegistered(old(users), email) then EmailConfirmed else NoMatchingUser
                        case Expired => LinkExpired
                        case BadSignature => LinkInvalid
                        case OtherError => ConfirmError
    {
      match token {
        case Loaded(email) =>
          var found := FindByEmail(users, email);
          if found.Some? {
            var id := found.value;
            ghost var before := users;
            users := users[id := users[id].(confirmed := true)];
            assert users == Confirmed(before, token) by {
              forall u | u in before ensures users[u] == Confirmed(before, token)[u] {
                assert before[u].email == email ==> u == id;
              }
            }
            notice := EmailConfirmed;
          } else {
            notice := NoMatchingUser;
          }
        case Expired =>
          notice := LinkExpired;
        case BadSignature =>
          notice := LinkInvalid;
        case OtherError =>
          notice := ConfirmError;
      }
      resp := RedirectToLogin;
    }

    /**
     * `login`: a signed-in client is sent to the index and an invalid form
     * is shown again. Otherwise: an unknown email or a wrong password leads
     * back to the login page, an unconfirmed user gets the login page again
     * without the password being checked, and a confirmed user with the
     * right password gets their id, email and name in the session.
     */
    method Login(form: LoginFormData) returns (resp: Response, notice: Option<AuthOutcome>)
      requires Valid()
      modifies this`session
      ensures Valid()
      ensures HasIdentity(old(session)) ==> resp == RedirectToIndex && session == old(session) && notice == None
      ensures !HasIdentity(old(session)) && !LoginFormValid(form) ==>
                resp == Render(LoginPage) && session == old(session) && notice == None
      ensures !HasIdentity(old(session)) && LoginFormValid(form) ==>
                var outcome := Authenticate(users, form.email, form.password, checkPassword);
                && notice == Some(outcome)
                && (outcome.Authenticated? ==>
                      resp == RedirectToIndex && session == SignIn(old(session), users[outcome.userId]))
                && (outcome == NoSuchAccount || outcome == WrongPassword ==>
                      resp == RedirectToLogin && session == old(session))
                && (outcome == NotConfirmed ==> resp == Render(LoginPage) && session == old(session))
    {
      if HasIdentity(session) {
        return RedirectToIndex, None;
      }
      if !LoginFormValid(form) {
        return Render(LoginPage), None;
      }
      var found := FindByEmail(users, form.email);
      if found.None? {
        return RedirectToLogin, Some(NoSuchAccount);
      }
      var user := users[found.value];
      if user.confirmed {
        if checkPassword(user.password, form.password) {
          session := session["user_id" := user.Id()];
          session := session["email" := user.email];
          session := session["name" := user.name];
          return RedirectToIndex, Some(Authenticated(found.value));
        } else {
          return RedirectToLogin, Some(WrongPassword);
        }
      }
      resp, notice := Render(LoginPage), Some(NotConfirmed);
    }

    /**
     * `logout`: deletes `user_id`, `email` and `name`, in that order, and
     * keeps the theme and every other key. A key that is missing raises
     * `KeyError`; the deletions made before it stay.
     */
    method Logout() returns (resp: Response)
      requires Valid()
      modifies this`session
      ensures Valid()
      ensures IdentityKeys <= old(session).Keys ==> resp == RedirectToLogin && session == SignOut(old(session))
      ensures "user_id" !in old(session) ==>
                resp == ServerError(KeyError("user_id")) && session == old(session)
      ensures "user_id" in old(session) && "email" !in old(session) ==>
                resp == ServerError(KeyError("email")) && session == old(session) - {"user_id"}
      ensures "user_id" in old(session) && "email" in old(session) && "name" !in old(session) ==>
                resp == ServerError(KeyError("name")) && session == old(session) - {"user_id", "email"}
    {
      if "user_id" !in session {
        return ServerError(KeyError("user_id"));
      }
      session := session - {"user_id"};
      if "email" !in session {
        return ServerError(KeyError("email"));
      }
      session := session - {"email"};
      if "name" !in session {
        return ServerError(KeyError("name"));
      }
      session := session - {"name"};
      resp := RedirectToLogin;
    }

    /**
     * `index`, behind `login_required`: the movies of the signed-in user,
     * found by the session's email. A session email no user has makes
     * `User(**None)` raise `TypeError`. Nothing is written.
     */
    method Index() returns (resp: Response, shown: seq<Movie>)
      requires Valid()
      ensures !HasIdentity(session) ==> resp == RedirectToLogin && shown == []
      ensures HasIdentity(session) && !EmailRegistered(users, session["email"]) ==>
                resp == ServerError(TypeError) && shown == []
      ensures HasIdentity(session) && EmailRegistered(users, session["email"]) ==>
                && resp == Render(IndexPage)
                && var owner := FindByEmail(users, session["email"]).value;
                   ListsExactly(shown, movies, users[owner].movies)
    {
      var blocked := LoginRequired(session);
      if blocked.Some? {
        return blocked.value, [];
      }
      var found := FindByEmail(users, session["email"]);
      if found.None? {
        return ServerError(TypeError), [];
      }
      shown := Listing(movies, users[found.value].movies);
      resp := Render(IndexPage);
    }

    /** `movie`, behind `login_required`: the details of any stored movie, or 404. Nothing is written. */
    method ShowMovie(id: string) returns (resp: Response, shown: Option<Movie>)
      ensures !HasIdentity(session) ==> resp == RedirectToLogin && shown == None
      ensures HasIdentity(session) && id !in movies ==> resp == NotFound && shown == None
      ensures HasIdentity(session) && id in movies ==> resp == Render(MovieDetailsPage) && shown == Some(movies[id])
    {
      var blocked := LoginRequired(session);
      if blocked.Some? {
        return blocked.value, None;
      }
      if id !in movies {
        return NotFound, None;
      }
      resp, shown := Render(MovieDetailsPage), Some(movies[id]);
    }

    /**
     * `add_movie`, behind `login_required`: for a valid form, inserts a new
     * movie under `newId` with the given title, director and year and the
     * defaults, then appends `newId` to the `movies` list of the user the
     * session's `user_id` names. The insert happens first: a session without
     * `user_id` raises `KeyError` after it, and an id no user has updates
     * nothing. Duplicates are not checked.
     */
    method AddMovie(form: MovieFormData, newId: string) returns (resp: Response)
      requires Valid()
      requires newId !in movies
      modifies this`movies, this`users
      ensures Valid()
      ensures !HasIdentity(session) || !form.submitted || CheckMovieForm(form, currentYear).Failure? ==>
                && resp == (if !HasIdentity(session) then RedirectToLogin else Render(NewMoviePage))
                && movies == old(movies) && users == old(users)
      ensures HasIdentity(session) && form.submitted && CheckMovieForm(form, currentYear).Success? ==>
                var input := CheckMovieForm(form, currentYear).value;
                && movies == old(movies)[newId := NewMovie(newId, input.title, input.director, input.year)]
                && ("user_id" !in session ==> resp == ServerError(KeyError("user_id")) && users == old(users))
                && ("user_id" in session ==> resp == RedirectToIndex)
                && ("user_id" in session && session["user_id"] !in old(users) ==> users == old(users))
                && ("user_id" in session && session["user_id"] in old(users) ==>
                      var uid := session["user_id"];
                      && users == old(users)[uid := old(users)[uid].(movies := old(users)[uid].movies + [newId])]
                      && multiset(users[uid].movies)[newId] == 1)
    {
      var blocked := LoginRequired(session);
      if blocked.Some? {
        return blocked.value;
      }
      if !form.submitted {
        return Render(NewMoviePage);
      }
      var checked := CheckMovieForm(form, currentYear);
      if checked.Failure? {
        return Render(NewMoviePage);
      }
      var input := checked.value;
      movies := movies[newId := NewMovie(newId, input.title, input.director, input.year)];
      if "user_id" !in session {
        return ServerError(KeyError("user_id"));
      }
      var uid := session["user_id"];
      if uid in users {
        var owned := users[uid].movies;
        assert newId !in owned;
        assert multiset(owned)[newId] == 0;
        users := users[uid := users[uid].(movies := owned + [newId])];
      }
      resp := RedirectToIndex;
    }

    /**
     * `edit_movie`, behind `login_required`: loads the movie (a missing id
     * makes `Movie(**None)` raise `TypeError` before anything is written);
     * for a valid form, writes back `cast`, `tags`, `series`, `description`
     * and `video_link` from the form and leaves every other field as it was.
     */
    method EditMovie(id: string, form: ExtendedFormData) returns (resp: Response)
      requires Valid()
      modifies this`movies
      ensures Valid()
      ensures !HasIdentity(session) ==> resp == RedirectToLogin && movies == old(movies)
      ensures HasIdentity(session) && id !in old(movies) ==> resp == ServerError(TypeError) && movies == old(movies)
      ensures HasIdentity(session) && id in old(movies) && !(form.base.submitted && CheckMovieForm(form.base, currentYear).Success?) ==>
                resp == Render(MovieFormPage) && movies == old(movies)
      ensures HasIdentity(session) && id in old(movies) && form.base.submitted && CheckMovieForm(form.base, currentYear).Success? ==>
                resp == RedirectToMovie(id) && movies == old(movies)[id := Edited(old(movies)[id], form)]
    {
      var blocked := LoginRequired(session);
      if blocked.Some? {
        return blocked.value;
      }
      if id !in movies {
        return ServerError(TypeError);
      }
      var movieToEdit := movies[id];
      if !form.base.submitted || CheckMovieForm(form.base, currentYear).Failure? {
        return Render(MovieFormPage);
      }
      var cast := new StringListField();
      cast.ProcessFormdata(form.cast);
      var tags := new StringListField();
      tags.ProcessFormdata(form.tags);
      var series := new StringListField();
      series.ProcessFormdata(form.series);
      movieToEdit := movieToEdit.(cast := cast.data.value, tags := tags.data.value, series := series.data.value,
                                  description := TextFieldData(form.description, movieToEdit.description),
                                  videoLink := TextFieldData(form.videoLink, movieToEdit.videoLink));
      assert movieToEdit == Edited(movies[id], form);
      assert movieToEdit.Id() == id;
      movies := movies[id := movieToEdit];
      resp := RedirectToMovie(id);
    }

    /**
     * `rate_movie`, behind `login_required`: the `rating` query argument
     * goes through `int()`; a missing argument raises `TypeError`, one that
     * is not an integer `ValueError`, and an integer outside 64 bits makes
     * the store's encoder raise `OverflowError`; none of them writes.
     * Otherwise only the movie's `rating` is set; an id no movie has
     * updates nothing.
     */
    method RateMovie(id: string, ratingArg: Option<string>) returns (resp: Response)
      requires Valid()
      modifies this`movies
      ensures Valid()
      ensures !HasIdentity(session) ==> resp == RedirectToLogin && movies == old(movies)
      ensures HasIdentity(session) && ratingArg.None? ==> resp == ServerError(TypeError) && movies == old(movies)
      ensures HasIdentity(session) && ratingArg.Some? && ParseInt(ratingArg.value).None? ==>
                resp == ServerError(ValueError) && movies == old(movies)
      ensures HasIdentity(session) && ratingArg.Some? && ParseInt(ratingArg.value).Some? &&
              !FitsInt64(ParseInt(ratingArg.value).value) ==>
                resp == ServerError(OverflowError) && movies == old(movies)
      ensures HasIdentity(session) && ratingArg.Some? && ParseInt(ratingArg.value).Some? &&
              FitsInt64(ParseInt(ratingArg.value).value) ==>
                && resp == RedirectToMovie(id)
                && movies == if id in old(movies)
                             then old(movies)[id := old(movies)[id].(rating := ParseInt(ratingArg.value).value)]
                             else old(movies)
    {
      var blocked := LoginRequired(session);
      if blocked.Some? {
        return blocked.value;
      }
      if ratingArg.None? {
        return ServerError(TypeError);
      }
      var rating := ParseInt(ratingArg.value);
      if rating.None? {
        return ServerError(ValueError);
      }
      if !FitsInt64(rating.value) {
        return ServerError(OverflowError);
      }
      if id in movies {
        movies := movies[id := movies[id].(rating := rating.value)];
      }
      resp := RedirectToMovie(id);
    }

    /**
     * `watch_today`, behind `login_required`: sets only the movie's
     * `last_watched`, always to the import-time `current_day` as the store
     * keeps it (to the millisecond), never to the time of the request; an
     * id no movie has updates nothing.
     */
    method WatchToday(id: string) returns (resp: Response)
      requires Valid()
      modifies this`movies
      ensures Valid()
      ensures !HasIdentity(session) ==> resp == RedirectToLogin && movies == old(movies)
      ensures HasIdentity(session) ==>
                && resp == RedirectToMovie(id)
                && movies == if id in old(movies)
                             then old(movies)[id := old(movies)[id].(lastWatched := Some(StoredDateTime(currentDay)))]
                             else old(movies)
    {
      var blocked := LoginRequired(session);
      if blocked.Some? {
        return blocked.value;
      }
      if id in movies {
        movies := movies[id := movies[id].(lastWatched := Some(StoredDateTime(currentDay)))];
      }
      resp := RedirectToMovie(id);
    }

    /** `toggle_theme`, open to everyone: flips the theme and returns to `currentPage`. */
    method ToggleTheme(currentPage: string) returns (resp: Response)
      requires Valid()
      modifies this`session
      ensures Valid()
      ensures session == ToggledTheme(old(session))
      ensures resp == RedirectTo(currentPage)
    {
      var currentTheme := if "theme" in session then Some(session["theme"]) else None;
      if currentTheme == Some("dark") {
        session := session["theme" := "light"];
      } else {
        session := session["theme" := "dark"];
      }
      resp := RedirectTo(currentPage);
    }
  }
}
