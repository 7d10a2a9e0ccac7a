/**
 * The form layer: the newline-separated list field, the movie form with its
 * inclusive year range, and the registration and login checks.
 *
 * A field's submitted values are its raw value list (what the request's form
 * data holds under the field's name, empty when the name is missing).
 * `submitted` stands for the form library's own `validate_on_submit`
 * preconditions: the request is a POST and its CSRF token is valid.
 */
module Forms {
  import opened Wrappers
  import opened PyStr
  import opened Models

  /** The lower end of the accepted production years. */
  const MinYear: int := 1900

  /** The shortest password `RegisterForm` accepts. */
  const MinPasswordLength: nat := 8

  /** Every entry is stripped and holds no newline: the shape `process_formdata` produces. */
  predicate CleanLines(lines: seq<string>) {
    forall i :: 0 <= i < |lines| ==> Stripped(lines[i]) && '\n' !in lines[i]
  }

  function StripAll(lines: seq<string>): (r: seq<string>)
    ensures |r| == |lines|
    ensures forall i :: 0 <= i < |r| ==> r[i] == Strip(lines[i])
  {
    seq(|lines|, i requires 0 <= i < |lines| => Strip(lines[i]))
  }

  /**
   * What `StringListField.process_formdata` assigns to `data`: one entry
   * per line of the first submitted value, each line stripped, or `[]` when
   * nothing or the empty string was submitted. The lines are the
   * newline-free pieces whose join is the submitted text.
   */
  function ParseLines(valuelist: seq<string>): (r: seq<string>)
    ensures |valuelist| == 0 || valuelist[0] == "" ==> r == []
    ensures |valuelist| > 0 && valuelist[0] != "" ==> |r| == Count(valuelist[0], '\n') + 1
    ensures CleanLines(r)
    ensures |valuelist| > 0 && valuelist[0] != "" ==>
              exists lines :: && Join(lines, '\n') == valuelist[0]
                              && |lines| == |r|
                              && (forall i :: 0 <= i < |lines| ==> '\n' !in lines[i])
                              && (forall i :: 0 <= i < |r| ==> r[i] == Strip(lines[i]))
  {
    if |valuelist| > 0 && valuelist[0] != "" then
      var lines := Split(valuelist[0], '\n');
      JoinSplit(valuelist[0], '\n');
      var r := StripAll(lines);
      assert forall i :: 0 <= i < |r| ==> '\n' !in r[i] by {
        forall i | 0 <= i < |r| ensures '\n' !in r[i] {
          assert '\n' !in lines[i];
        }
      }
      assert Join(lines, '\n') == valuelist[0] && |lines| == |r|;
      r
    else
      []
  }

  lemma SplitJoinLines(lines: seq<string>)
    requires |lines| > 0
    ensures CleanLines(lines) ==> Split(Join(lines, '\n'), '\n') == lines
  {
    if CleanLines(lines) {
      SplitJoin(lines, '\n');
    }
  }

  /** A `StringListField`: a text area whose data is a list of lines. */
  class StringListField {
    var data: Option<seq<string>>

    constructor ()
      ensures data == None
    {
      data := None;
    }

    /**
     * `_value`: the text shown in the text area. Nothing is shown for
     * missing or empty data; otherwise there is one line per entry.
     */
    function Value(): (r: string)
      reads this
      ensures data == None || data == Some([]) ==> r == ""
      ensures data.Some? && data.value != [] && CleanLines(data.value) ==> Split(r, '\n') == data.value
    {
      if data.Some? && data.value != [] then
        var lines := data.value;
        SplitJoinLines(lines);
        Join(lines, '\n')
      else
        ""
    }

    /** `process_formdata`: replace the data with the lines of the submitted text. */
    method ProcessFormdata(valuelist: seq<string>)
      modifies this
      ensures data == Some(ParseLines(valuelist))
    {
      if |valuelist| > 0 && valuelist[0] != "" {
        data := Some(StripAll(Split(valuelist[0], '\n')));
      } else {
        data := Some([]);
      }
    }
  }

  /** Stripping each entry of a list that is already clean changes nothing. */
  lemma StripAllClean(lines: seq<string>)
    requires CleanLines(lines)
    ensures StripAll(lines) == lines
  {
  }

  /**
   * Showing clean data and submitting the shown text gives the data back,
   * except for the single entry `""`, which shows as the empty text and so
   * comes back as no entries at all.
   */
  lemma ValueRoundTrip(field: StringListField)
    requires field.data.Some? && CleanLines(field.data.value)
    ensures field.data.value != [""] ==> ParseLines([field.Value()]) == field.data.value
    ensures field.data.value == [""] ==> ParseLines([field.Value()]) == []
  {
    var lines := field.data.value;
    var text := field.Value();
    if lines != [] && lines != [""] {
      assert text != "" by {
        if |lines| == 1 {
          assert lines[0] != "";
        } else {
          assert text == lines[0] + ['\n'] + Join(lines[1..], '\n');
        }
      }
      assert Split(text, '\n') == lines;
      StripAllClean(lines);
    }
  }

  /**
   * The round trip for a field filled by `process_formdata` itself: its
   * lines survive being shown and submitted again, except `[""]`, which
   * comes back as `[]`.
   */
  lemma FormdataRoundTrip(field: StringListField, valuelist: seq<string>)
    requires field.data == Some(ParseLines(valuelist))
    ensures field.data.value != [""] ==> ParseLines([field.Value()]) == field.data.value
    ensures field.data.value == [""] ==> ParseLines([field.Value()]) == []
  {
    ValueRoundTrip(field);
  }

  /**
   * When the exceptional `[""]` arises: the submitted text is non-empty,
   * has no newline and is whitespace only.
   */
  lemma ParseLinesBlank(valuelist: seq<string>)
    ensures ParseLines(valuelist) == [""] <==>
            |valuelist| > 0 && valuelist[0] != "" && '\n' !in valuelist[0] && AllSpace(valuelist[0])
  {
    if |valuelist| > 0 && valuelist[0] != "" {
      var text := valuelist[0];
      if '\n' !in text {
        SplitPiece(text, '\n');
      } else {
        assert Count(text, '\n') > 0 by { CountPositive(text, '\n'); }
      }
    }
  }

  lemma {:induction false} CountPositive(s: string, c: char)
    requires c in s
    ensures Count(s, c) > 0
  {
    if s[0] != c {
      assert c in s[1..];
      CountPositive(s[1..], c);
    }
  }

  /** `InputRequired()`: a value was submitted and the first one is not empty. */
  predicate InputPresent(raw: seq<string>): (ok: bool)
    ensures ok <==> |raw| > 0 && |raw[0]| > 0
  {
    |raw| > 0 && raw[0] != ""
  }

  /**
   * The `year` field of `MovieForm`: an `IntegerField` that is required and
   * must lie in `NumberRange(min=1900, max=current_year)`, both ends included.
   * Returns the accepted year.
   */
  function ValidateYear(raw: seq<string>, currentYear: int): (r: Option<int>)
    ensures r.Some? ==> InputPresent(raw) && ParseInt(raw[0]) == r
    ensures r.Some? ==> MinYear <= r.value <= currentYear
    ensures InputPresent(raw) && ParseInt(raw[0]).Some? && MinYear <= ParseInt(raw[0]).value <= currentYear ==> r.Some?
  {
    if !InputPresent(raw) then None
    else
      match ParseInt(raw[0])
      case None => None
      case Some(year) => if MinYear <= year <= currentYear then Some(year) else None
  }

  /** The written year `y` is accepted exactly when 1900 <= y <= current_year. */
  lemma YearRangeInclusive(y: int, currentYear: int)
    ensures ValidateYear([IntToString(y)], currentYear) == (if MinYear <= y <= currentYear then Some(y) else None)
  {
    ParseIntToString(y);
    assert IntToString(y) != "" by {
      if y < 0 { } else { assert |NatToDigits(y)| > 0; }
    }
  }

  /** A missing or empty year is never accepted. */
  lemma YearRequired(raw: seq<string>, currentYear: int)
    requires !InputPresent(raw)
    ensures ValidateYear(raw, currentYear) == None
  {
  }

  /** The fields of `MovieForm`. */
  datatype MovieField = Title | Director | Year

  /** The submitted values of `MovieForm`. */
  datatype MovieFormData = MovieFormData(submitted: bool, title: seq<string>, director: seq<string>, year: seq<string>)

  /** The data of a `MovieForm` that validated. */
  datatype MovieInput = MovieInput(title: string, director: string, year: int)

  /**
   * `MovieForm.validate()`: title and director are required, the year is
   * required and in range. On failure, exactly the failing fields.
   */
  function CheckMovieForm(form: MovieFormData, currentYear: int): (r: Result<MovieInput, set<MovieField>>)
    ensures r.Success? <==> InputPresent(form.title) && InputPresent(form.director) && ValidateYear(form.year, currentYear).Some?
    ensures r.Success? ==> r.value == MovieInput(form.title[0], form.director[0], ValidateYear(form.year, currentYear).value)
    ensures r.Failure? ==>
      && (Title in r.error <==> !InputPresent(form.title))
      && (Director in r.error <==> !InputPresent(form.director))
      && (Year in r.error <==> ValidateYear(form.year, currentYear).None?)
  {
    var year := ValidateYear(form.year, currentYear);
    var errors :=
      (if InputPresent(form.title) then {} else {Title}) +
      (if InputPresent(form.director) then {} else {Director}) +
      (if year.Some? then {} else {Year});
    if errors == {} then
      Success(MovieInput(form.title[0], form.director[0], year.value))
    else
      Failure(errors)
  }

  /** The submitted values of `ExtendedMovieForm`: the movie form plus the edit fields. */
  datatype ExtendedFormData = ExtendedFormData(
    base: MovieFormData,
    cast: seq<string>,
    series: seq<string>,
    tags: seq<string>,
    description: seq<string>,
    videoLink: seq<string>)

  /**
   * The data of a plain text field (`TextAreaField`, `URLField`) of a form
   * built over a loaded record: the first submitted value, or the record's
   * own value when the field was not submitted at all.
   */
  function TextFieldData(raw: seq<string>, loaded: Option<string>): (r: Option<string>)
    ensures |raw| > 0 ==> r == Some(raw[0])
    ensures |raw| == 0 ==> r == loaded
  {
    if |raw| > 0 then Some(raw[0]) else loaded
  }

  /** Some user in `users` has this email. */
  predicate EmailRegistered(users: map<string, User>, email: string) {
    exists id :: id in users && users[id].email == email
  }

  /** `RegisterForm.validate_email`: the address is not yet used by any user. */
  function ValidateEmail(users: map<string, User>, email: string): (ok: bool)
    ensures ok <==> forall id :: id in users ==> users[id].email != email
  {
    !EmailRegistered(users, email)
  }

  /** The fields of `RegisterForm` that can fail. */
  datatype RegisterField = Email | Password | ConfirmPassword | Name | Recaptcha

  /**
   * The submitted values of `RegisterForm`. `emailWellFormed` is the
   * verdict of the form library's `Email()` validator and `recaptchaPassed`
   * that of the reCAPTCHA service.
   */
  datatype RegisterFormData = RegisterFormData(
    submitted: bool,
    email: string,
    password: string,
    confirmPassword: string,
    name: string,
    emailWellFormed: bool,
    recaptchaPassed: bool)

  /**
   * The fields `RegisterForm.validate()` rejects: an email that is missing,
   * malformed or already registered; a password shorter than 8 characters;
   * a confirmation that is missing or differs from the password; a missing
   * name; a failed reCAPTCHA.
   */
  function RegisterErrors(users: map<string, User>, form: RegisterFormData): (errors: set<RegisterField>)
    ensures Email in errors <==> form.email == "" || !form.emailWellFormed || EmailRegistered(users, form.email)
    ensures Password in errors <==> |form.password| < MinPasswordLength
    ensures ConfirmPassword in errors <==> form.confirmPassword == "" || form.confirmPassword != form.password
    ensures Name in errors <==> form.name == ""
    ensures Recaptcha in errors <==> !form.recaptchaPassed
  {
    var email := if InputPresent([form.email]) && form.emailWellFormed && ValidateEmail(users, form.email) then {} else {Email};
    var password := if InputPresent([form.password]) && |form.password| >= MinPasswordLength then {} else {Password};
    var confirm := if InputPresent([form.confirmPassword]) && form.confirmPassword == form.password then {} else {ConfirmPassword};
    var name := if InputPresent([form.name]) then {} else {Name};
    var recaptcha := if form.recaptchaPassed then {} else {Recaptcha};
    email + password + confirm + name + recaptcha
  }

  /** A registration that passes has a fresh email and a confirmed password of at least 8 characters. */
  lemma AcceptedRegistration(users: map<string, User>, form: RegisterFormData)
    requires RegisterErrors(users, form) == {}
    ensures forall id :: id in users ==> users[id].email != form.email
    ensures |form.password| >= MinPasswordLength && form.confirmPassword == form.password
    ensures form.email != "" && form.name != ""
  {
    assert Email !in RegisterErrors(users, form);
    assert Password !in RegisterErrors(users, form);
    assert ConfirmPassword !in RegisterErrors(users, form);
    assert Name !in RegisterErrors(users, form);
  }

  /** The submitted values of `LoginForm`; `emailWellFormed` is the `Email()` verdict. */
  datatype LoginFormData = LoginFormData(submitted: bool, email: string, password: string, emailWellFormed: bool)

  /** `LoginForm.validate_on_submit()`: submitted, with a well-formed email and a password. */
  predicate LoginFormValid(form: LoginFormData): (ok: bool)
    ensures ok <==> form.submitted && form.email != "" && form.emailWellFormed && form.password != ""
  {
    form.submitted && InputPresent([form.email]) && form.emailWellFormed && InputPresent([form.password])
  }
}
