/** The field validators of the three forms: RegisterForm, LoginForm and
    ComplaintForm. A form validates when every validator of every field
    accepts the submitted text. The email-syntax validator is a library
    routine; it is passed in as the predicate `isEmail`. */
module Forms {
  import opened Models

  /** The characters Python's `str.strip()` removes (`str.isspace()`). */
  predicate IsSpace(c: char)
  {
    || '\U{9}' <= c <= '\U{D}'
    || '\U{1C}' <= c <= '\U{20}'
    || c == '\U{85}' || c == '\U{A0}' || c == '\U{1680}'
    || '\U{2000}' <= c <= '\U{200A}'
    || c == '\U{2028}' || c == '\U{2029}' || c == '\U{202F}' || c == '\U{205F}' || c == '\U{3000}'
  }

  /** `s` without its leading whitespace. */
  function LStrip(s: string): (r: string)
    ensures |r| <= |s| && r == s[|s| - |r|..]
    ensures r == [] || !IsSpace(r[0])
    ensures forall i :: 0 <= i < |s| - |r| ==> IsSpace(s[i])
  {
    if s != [] && IsSpace(s[0]) then LStrip(s[1..]) else s
  }

  /** `s` without its trailing whitespace. */
  function RStrip(s: string): (r: string)
    ensures |r| <= |s| && r == s[..|r|]
    ensures r == [] || !IsSpace(r[|r| - 1])
    ensures forall i :: |r| <= i < |s| ==> IsSpace(s[i])
  {
    if s != [] && IsSpace(s[|s| - 1]) then RStrip(s[..|s| - 1]) else s
  }

  function Strip(s: string): string
  {
    RStrip(LStrip(s))
  }

  /** WTForms' DataRequired on a text field: the text is not empty once
      stripped of whitespace. */
  predicate DataRequired(s: string)
  {
    |Strip(s)| > 0
  }

  /** WTForms' Length(min, max): `max` absent means no upper bound. */
  predicate Length(s: string, min: nat, max: Option<nat>)
  {
    min <= |s| && (max.Some? ==> |s| <= max.value)
  }

  /** Some character of `s` is not whitespace. */
  predicate HasVisibleChar(s: string)
  {
    exists i :: 0 <= i < |s| && !IsSpace(s[i])
  }

  /** What is left after stripping starts with a character of the text
      that is not whitespace. */
  lemma StrippedIsVisible(s: string)
    requires DataRequired(s)
    ensures HasVisibleChar(s)
  {
    var l := LStrip(s);
    var r := RStrip(l);
    var k := |s| - |l|;
    assert s[k] == l[0] == r[0];
  }

  /** A non-whitespace character survives the left strip, at the same
      distance from the end. */
  lemma LStripKeeps(s: string, i: nat)
    requires i < |s| && !IsSpace(s[i])
    ensures |s| - |LStrip(s)| <= i
    ensures LStrip(s)[i - (|s| - |LStrip(s)|)] == s[i]
  {
  }

  /** A non-whitespace character survives the right strip, at the same index. */
  lemma RStripKeeps(s: string, i: nat)
    requires i < |s| && !IsSpace(s[i])
    ensures i < |RStrip(s)| && RStrip(s)[i] == s[i]
  {
  }

  /** Stripping keeps every non-whitespace character of the text. */
  lemma VisibleSurvivesStrip(s: string)
    requires HasVisibleChar(s)
    ensures DataRequired(s)
  {
    var i :| 0 <= i < |s| && !IsSpace(s[i]);
    LStripKeeps(s, i);
    var l := LStrip(s);
    RStripKeeps(l, i - (|s| - |l|));
  }

  /** DataRequired accepts exactly the texts that hold a non-whitespace
      character: stripping removes whitespace and nothing else. */
  lemma DataRequiredIffVisible(s: string)
    ensures DataRequired(s) <==> HasVisibleChar(s)
  {
    if DataRequired(s) {
      StrippedIsVisible(s);
    }
    if HasVisibleChar(s) {
      VisibleSurvivesStrip(s);
    }
  }

  // ---- RegisterForm ----

  predicate RegisterUsernameValid(username: string)
  {
    DataRequired(username) && Length(username, 3, Some(100))
  }

  predicate RegisterEmailValid(email: string, isEmail: string -> bool)
  {
    DataRequired(email) && isEmail(email)
  }

  predicate RegisterPasswordValid(password: string)
  {
    DataRequired(password) && Length(password, 6, None)
  }

  predicate RegisterFormValid(username: string, email: string, password: string, isEmail: string -> bool)
  {
    RegisterUsernameValid(username) && RegisterEmailValid(email, isEmail) && RegisterPasswordValid(password)
  }

  // ---- LoginForm ----

  predicate LoginFormValid(email: string, password: string, isEmail: string -> bool)
  {
    DataRequired(email) && isEmail(email) && DataRequired(password)
  }

  // ---- ComplaintForm (used both to create and to edit) ----

  predicate ComplaintTitleValid(title: string)
  {
    DataRequired(title) && Length(title, 5, Some(200))
  }

  predicate ComplaintDescriptionValid(description: string)
  {
    DataRequired(description) && Length(description, 10, None)
  }

  predicate ComplaintFormValid(title: string, description: string)
  {
    ComplaintTitleValid(title) && ComplaintDescriptionValid(description)
  }

  /** What a valid registration guarantees about the stored username,
      email and password, stated without the strip function. */
  lemma RegisterFormMeaning(username: string, email: string, password: string, isEmail: string -> bool)
    ensures RegisterFormValid(username, email, password, isEmail) <==>
              && 3 <= |username| <= 100 && HasVisibleChar(username)
              && HasVisibleChar(email) && isEmail(email)
              && 6 <= |password| && HasVisibleChar(password)
  {
    DataRequiredIffVisible(username);
    DataRequiredIffVisible(email);
    DataRequiredIffVisible(password);
  }

  /** Login asks for a syntactically valid email and any password with a
      visible character: there is no minimum password length. */
  lemma LoginFormMeaning(email: string, password: string, isEmail: string -> bool)
    ensures LoginFormValid(email, password, isEmail) <==>
              HasVisibleChar(email) && isEmail(email) && HasVisibleChar(password)
  {
    DataRequiredIffVisible(email);
    DataRequiredIffVisible(password);
  }

  /** A one-character password passes the login form but never the
      registration form. */
  lemma LoginHasNoPasswordMinimum(username: string, email: string, isEmail: string -> bool)
    requires isEmail(email) && HasVisibleChar(email)
    ensures LoginFormValid(email, "x", isEmail)
    ensures !RegisterFormValid(username, email, "x", isEmail)
  {
    LoginFormMeaning(email, "x", isEmail);
    assert !IsSpace("x"[0]);
  }

  /** A valid complaint form has a title of 5 to 200 characters and a
      description of at least 10, each with a visible character; the
      description has no upper bound. */
  lemma ComplaintFormMeaning(title: string, description: string)
    ensures ComplaintFormValid(title, description) <==>
              && 5 <= |title| <= 200 && HasVisibleChar(title)
              && 10 <= |description| && HasVisibleChar(description)
  {
    DataRequiredIffVisible(title);
    DataRequiredIffVisible(description);
  }

  /** The form bounds fit the columns: a valid title fits `title` and a
      valid username fits `username`. */
  lemma FormsFitColumns(username: string, email: string, password: string, isEmail: string -> bool,
                        title: string, description: string)
    ensures ComplaintFormValid(title, description) ==> |title| <= TitleColumnMax
    ensures RegisterFormValid(username, email, password, isEmail) ==> |username| <= UsernameColumnMax
  {
  }
}
