/**
  The contact-form library of `src/lib/form.ts`: the per-field rules and their
  first-failure validation, whole-form validation, the checks `submitContactForm`
  makes before and around its POST, input sanitising, and the client-side rate limit.
*/
module Form {
  import opened Wrappers
  import JsString
  import BrowserStorage

  // ---------------------------------------------------------------------------
  // data

  /** The keys of `ContactFormData`, in the order the object literal lists them. */
  datatype Field = Name | Email | Message | Consent | Honeypot

  /** The form's values; `honeypot` is optional. */
  datatype ContactFormData = ContactFormData(
    name: string, email: string, message: string, consent: bool, honeypot: Option<string>)

  /** A value handed to `validateField`: a string or a boolean. */
  datatype FieldValue = Text(s: string) | Flag(b: bool)

  /** The checks of a rule, in the order `validateField` applies them. */
  datatype Check = Required | MinLength | MaxLength | Pattern

  datatype PatternKind = NamePattern | EmailPattern

  /** One entry of `validationRules`. */
  datatype Rule = Rule(required: bool, minLength: Option<nat>, maxLength: Option<nat>, pattern: Option<PatternKind>)

  /** `validationRules`: `honeypot` has none. */
  function RuleFor(f: Field): Option<Rule> {
    match f
    case Name => Some(Rule(true, Some(2), Some(50), Some(NamePattern)))
    case Email => Some(Rule(true, None, Some(100), Some(EmailPattern)))
    case Message => Some(Rule(true, Some(10), Some(1000), None))
    case Consent => Some(Rule(true, None, None, None))
    case Honeypot => None
  }

  /** `errorMessages[f][c]`: `honeypot` has no messages, and `email` none for a minimum length. */
  function ErrorMessage(f: Field, c: Check): Option<string> {
    match (f, c)
    case (Name, Required) => Some("Imi\U{0119} i nazwisko jest wymagane")
    case (Name, MinLength) => Some("Imi\U{0119} i nazwisko musi mie\U{0107} co najmniej 2 znaki")
    case (Name, MaxLength) => Some("Imi\U{0119} i nazwisko nie mo\U{017C}e przekracza\U{0107} 50 znak\U{00F3}w")
    case (Name, Pattern) =>
      Some("Imi\U{0119} i nazwisko mo\U{017C}e zawiera\U{0107} tylko litery, spacje, my\U{015B}lniki i apostrofy")
    case (Email, Required) => Some("Adres e-mail jest wymagany")
    case (Email, Pattern) => Some("Podaj prawid\U{0142}owy adres e-mail")
    case (Email, MaxLength) => Some("Adres e-mail nie mo\U{017C}e przekracza\U{0107} 100 znak\U{00F3}w")
    case (Message, Required) => Some("Wiadomo\U{015B}\U{0107} jest wymagana")
    case (Message, MinLength) => Some("Wiadomo\U{015B}\U{0107} musi mie\U{0107} co najmniej 10 znak\U{00F3}w")
    case (Message, MaxLength) => Some("Wiadomo\U{015B}\U{0107} nie mo\U{017C}e przekracza\U{0107} 1000 znak\U{00F3}w")
    case (Consent, Required) => Some("Musisz wyrazi\U{0107} zgod\U{0119} na przetwarzanie danych osobowych")
    case _ => None
  }

  function ValueOf(data: ContactFormData, f: Field): FieldValue {
    match f
    case Name => Text(data.name)
    case Email => Text(data.email)
    case Message => Text(data.message)
    case Consent => Flag(data.consent)
    case Honeypot => Text(if data.honeypot.Some? then data.honeypot.value else "")
  }

  // ---------------------------------------------------------------------------
  // patterns

  /** The Polish letters the name pattern admits besides `a-z` and `A-Z`. */
  const PolishLetters: string :=
    "\U{0105}\U{0107}\U{0119}\U{0142}\U{0144}\U{00F3}\U{015B}\U{017A}\U{017C}" +
    "\U{0104}\U{0106}\U{0118}\U{0141}\U{0143}\U{00D3}\U{015A}\U{0179}\U{017B}"

  /** One character of the name pattern's class: a letter, white space, `-` or `'`. */
  predicate NameChar(c: char) {
    ('a' <= c <= 'z') || ('A' <= c <= 'Z') || c in PolishLetters ||
    JsString.IsWhitespace(c) || c == '-' || c == '\''
  }

  /** The name pattern: one or more characters of the class. */
  predicate MatchesName(t: string) {
    |t| >= 1 && forall k | 0 <= k < |t| :: NameChar(t[k])
  }

  /** `[^\s@]`. */
  predicate EmailChar(c: char) {
    !JsString.IsWhitespace(c) && c != '@'
  }

  /** `[^\s@]+` matching `t[lo..hi]`. */
  predicate EmailRun(t: string, lo: nat, hi: nat)
    requires lo <= hi <= |t|
  {
    lo < hi && forall k | lo <= k < hi :: EmailChar(t[k])
  }

  /**
    The e-mail pattern, read as the regular expression reads it: a run, `@` at `i`, a
    run, a `.` at `j` and a run, covering the whole string.
  */
  predicate MatchesEmail(t: string) {
    exists i, j | 0 < i < j < |t| ::
      EmailRun(t, 0, i) && t[i] == '@' && EmailRun(t, i + 1, j) && t[j] == '.' && EmailRun(t, j + 1, |t|)
  }

  /** The same shape in plain words: no white space, exactly one `@`, and a `.` strictly inside the domain. */
  predicate EmailShape(t: string) {
    (forall k | 0 <= k < |t| :: !JsString.IsWhitespace(t[k])) &&
    exists i | 0 < i < |t| ::
      t[i] == '@' && (forall k | 0 <= k < |t| && k != i :: t[k] != '@') &&
      exists j | i + 1 < j < |t| - 1 :: t[j] == '.'
  }

  /** The pattern and the plain description accept the same strings. */
  lemma MatchesEmailIffShape(t: string)
    ensures MatchesEmail(t) <==> EmailShape(t)
  {
    assert !JsString.IsWhitespace('@') && !JsString.IsWhitespace('.');
    if MatchesEmail(t) {
      var i, j :| 0 < i < j < |t| &&
        EmailRun(t, 0, i) && t[i] == '@' && EmailRun(t, i + 1, j) && t[j] == '.' && EmailRun(t, j + 1, |t|);
      forall k | 0 <= k < |t| && k != i
        ensures t[k] != '@' && !JsString.IsWhitespace(t[k])
      {
        if k != j {
          assert EmailChar(t[k]);
        }
      }
      assert i + 1 < j < |t| - 1 && t[j] == '.';
    }
    if EmailShape(t) {
      var i :| 0 < i < |t| && t[i] == '@' && (forall k | 0 <= k < |t| && k != i :: t[k] != '@') &&
        exists j | i + 1 < j < |t| - 1 :: t[j] == '.';
      var j :| i + 1 < j < |t| - 1 && t[j] == '.';
      assert EmailRun(t, 0, i) && EmailRun(t, i + 1, j) && EmailRun(t, j + 1, |t|);
    }
  }

  function PatternHolds(p: PatternKind, t: string): bool {
    match p
    case NamePattern => MatchesName(t)
    case EmailPattern => MatchesEmail(t)
  }

  // ---------------------------------------------------------------------------
  // field validation

  /** The first check of `rule` that `v` fails: required, then minimum, maximum and pattern on the trimmed string. */
  function FirstFailure(rule: Rule, v: FieldValue): Option<Check> {
    if rule.required && v.Flag? && !v.b then Some(Required)
    else if rule.required && v.Text? && |JsString.Trim(v.s)| == 0 then Some(Required)
    else if v.Text? && |JsString.Trim(v.s)| > 0 then
      var t := JsString.Trim(v.s);
      if rule.minLength.Some? && |t| < rule.minLength.value then Some(MinLength)
      else if rule.maxLength.Some? && |t| > rule.maxLength.value then Some(MaxLength)
      else if rule.pattern.Some? && !PatternHolds(rule.pattern.value, t) then Some(Pattern)
      else None
    else None
  }

  /** Whether `v` fails check `c` of `rule`, each check on its own. */
  predicate Fails(rule: Rule, v: FieldValue, c: Check) {
    match c
    case Required => rule.required && ((v.Flag? && !v.b) || (v.Text? && JsString.Trim(v.s) == []))
    case MinLength => v.Text? && rule.minLength.Some? && 0 < |JsString.Trim(v.s)| < rule.minLength.value
    case MaxLength => v.Text? && rule.maxLength.Some? && |JsString.Trim(v.s)| > rule.maxLength.value
    case Pattern => v.Text? && JsString.Trim(v.s) != [] && rule.pattern.Some? &&
                    !PatternHolds(rule.pattern.value, JsString.Trim(v.s))
  }

  /** Every check before `c` passes. */
  predicate EarlierChecksPass(rule: Rule, v: FieldValue, c: Check) {
    match c
    case Required => true
    case MinLength => !Fails(rule, v, Required)
    case MaxLength => !Fails(rule, v, Required) && !Fails(rule, v, MinLength)
    case Pattern => !Fails(rule, v, Required) && !Fails(rule, v, MinLength) && !Fails(rule, v, MaxLength)
  }

  /** The check reported is the earliest one that fails; none is reported when all pass. */
  lemma FirstFailureIsEarliest(rule: Rule, v: FieldValue, c: Check)
    ensures FirstFailure(rule, v) == Some(c) <==> Fails(rule, v, c) && EarlierChecksPass(rule, v, c)
    ensures FirstFailure(rule, v).None? <==>
              !Fails(rule, v, Required) && !Fails(rule, v, MinLength) &&
              !Fails(rule, v, MaxLength) && !Fails(rule, v, Pattern)
  {
    if v.Text? {
      var t := JsString.Trim(v.s);
      if t != [] {
        var p := rule.pattern.Some? && !PatternHolds(rule.pattern.value, t);
        assert Fails(rule, v, Pattern) == p;
      }
    }
  }

  /**
    `validateField`: no rule or no messages means no error; otherwise the message of
    the first failed check. Every check a rule can fail has a message.
  */
  function ValidateField(f: Field, v: FieldValue): (r: Option<string>)
    ensures RuleFor(f).None? ==> r.None?
    ensures RuleFor(f).Some? ==> (r.Some? <==> FirstFailure(RuleFor(f).value, v).Some?)
    ensures r.Some? ==> r == ErrorMessage(f, FirstFailure(RuleFor(f).value, v).value)
  {
    match RuleFor(f)
    case None => None
    case Some(rule) =>
      match FirstFailure(rule, v)
      case None => None
      case Some(c) => ErrorMessage(f, c)
  }

  /** The honeypot, which has no rule, never has an error. */
  lemma NoRuleNoError(v: FieldValue)
    ensures ValidateField(Honeypot, v) == None
  {
  }

  /** An unticked consent, or a string that trims to nothing, gets the field's `required` message. */
  lemma RequiredMessage(f: Field, v: FieldValue)
    requires f != Honeypot
    requires v == Flag(false) || (v.Text? && JsString.Trim(v.s) == [])
    ensures ValidateField(f, v) == ErrorMessage(f, Required) && ValidateField(f, v).Some?
  {
  }

  /** A name passes exactly when it trims to 2..50 characters of the name class. */
  lemma NameValid(s: string)
    ensures ValidateField(Name, Text(s)).None? <==>
              2 <= |JsString.Trim(s)| <= 50 && MatchesName(JsString.Trim(s))
  {
    var t := JsString.Trim(s);
    assert FirstFailure(RuleFor(Name).value, Text(s)).None? <==> 2 <= |t| <= 50 && MatchesName(t);
  }

  /** An e-mail passes exactly when it trims to at most 100 characters of the e-mail shape. */
  lemma EmailValid(s: string)
    ensures ValidateField(Email, Text(s)).None? <==>
              |JsString.Trim(s)| <= 100 && EmailShape(JsString.Trim(s))
  {
    var t := JsString.Trim(s);
    MatchesEmailIffShape(t);
    assert FirstFailure(RuleFor(Email).value, Text(s)).None? <==> |t| <= 100 && MatchesEmail(t);
  }

  /** A message passes exactly when it trims to 10..1000 characters. */
  lemma MessageValid(s: string)
    ensures ValidateField(Message, Text(s)).None? <==> 10 <= |JsString.Trim(s)| <= 1000
  {
    var t := JsString.Trim(s);
    assert FirstFailure(RuleFor(Message).value, Text(s)).None? <==> 10 <= |t| <= 1000;
  }

  /** Consent passes exactly when it is given. */
  lemma ConsentValid(b: bool)
    ensures ValidateField(Consent, Flag(b)).None? <==> b
  {
  }

  /** A too-short name is reported as too short even when its characters are wrong too. */
  lemma ShortBadNameReportsLength()
    ensures ValidateField(Name, Text(" 7 ")) == ErrorMessage(Name, MinLength)
  {
    assert JsString.Trim(" 7 ") == "7" by {
      JsString.TrimOfTrimmed("7");
      assert JsString.TrimStart(" 7 ") == "7 ";
      assert JsString.TrimEnd("7 ") == "7";
    }
  }

  // ---------------------------------------------------------------------------
  // form validation

  /** The fields `validateForm` visits: every key but the honeypot. */
  const ValidatedFields: seq<Field> := [Name, Email, Message, Consent]

  /** The `FormErrors` object `validateForm` builds. */
  function FormErrors(data: ContactFormData): (errors: map<Field, string>)
    ensures forall f :: f in errors <==> f != Honeypot && ValidateField(f, ValueOf(data, f)).Some?
    ensures forall f | f in errors :: errors[f] == ValidateField(f, ValueOf(data, f)).value
  {
    ValidatedFieldsAreTheOthers();
    map f | f in ValidatedFields && ValidateField(f, ValueOf(data, f)).Some? :: ValidateField(f, ValueOf(data, f)).value
  }

  /** The visited fields are exactly those that are not the honeypot. */
  lemma ValidatedFieldsAreTheOthers()
    ensures forall f :: f in ValidatedFields <==> f != Honeypot
  {
  }

  /** A form is free of errors exactly when each of its four fields passes its own rule. */
  lemma FormErrorsEmptyIff(data: ContactFormData)
    ensures FormErrors(data) == map[] <==>
              2 <= |JsString.Trim(data.name)| <= 50 && MatchesName(JsString.Trim(data.name)) &&
              |JsString.Trim(data.email)| <= 100 && EmailShape(JsString.Trim(data.email)) &&
              10 <= |JsString.Trim(data.message)| <= 1000 &&
              data.consent
  {
    NameValid(data.name);
    EmailValid(data.email);
    MessageValid(data.message);
    ConsentValid(data.consent);
    NoErrorsIffFieldsPass(data);
  }

  /** No errors means each of the four validated fields passes on its own. */
  lemma NoErrorsIffFieldsPass(data: ContactFormData)
    ensures FormErrors(data) == map[] <==>
              ValidateField(Name, Text(data.name)).None? && ValidateField(Email, Text(data.email)).None? &&
              ValidateField(Message, Text(data.message)).None? && ValidateField(Consent, Flag(data.consent)).None?
  {
    var e := FormErrors(data);
    assert ValueOf(data, Name) == Text(data.name) && ValueOf(data, Email) == Text(data.email);
    assert ValueOf(data, Message) == Text(data.message) && ValueOf(data, Consent) == Flag(data.consent);
    if ValidateField(Name, Text(data.name)).None? && ValidateField(Email, Text(data.email)).None? &&
       ValidateField(Message, Text(data.message)).None? && ValidateField(Consent, Flag(data.consent)).None? {
      forall f | f in e
        ensures false
      {
        match f
        case Name =>
        case Email =>
        case Message =>
        case Consent =>
        case Honeypot =>
      }
      assert e.Keys == {};
    }
  }

  /** `validateForm`: visits the keys in order, skipping the honeypot, and records each error. */
  method ValidateForm(data: ContactFormData) returns (errors: map<Field, string>)
    ensures errors == FormErrors(data)
  {
    var keys := ValidatedFields + [Honeypot];
    errors := map[];
    for i := 0 to |keys|
      invariant forall f :: f in errors <==> f in keys[..i] && f != Honeypot && ValidateField(f, ValueOf(data, f)).Some?
      invariant forall f | f in errors :: errors[f] == ValidateField(f, ValueOf(data, f)).value
    {
      var key := keys[i];
      assert keys[..i + 1] == keys[..i] + [key];
      if key != Honeypot {
        var error := ValidateField(key, ValueOf(data, key));
        if error.Some? {
          errors := errors[key := error.value];
        }
      }
    }
    assert keys[..|keys|] == keys;
    forall f: Field
      ensures f in keys
    {
      match f
      case Name => assert keys[0] == Name;
      case Email => assert keys[1] == Email;
      case Message => assert keys[2] == Message;
      case Consent => assert keys[3] == Consent;
      case Honeypot => assert keys[4] == Honeypot;
    }
  }

  // ---------------------------------------------------------------------------
  // submission

  const InvalidFormError: string := "Formularz zawiera b\U{0142}\U{0119}dy. Sprawd\U{017A} wprowadzone dane."
  const SpamError: string := "Wykryto spam. Formularz nie zosta\U{0142} wys\U{0142}any."
  const ServerError: string := "Wyst\U{0105}pi\U{0142} b\U{0142}\U{0105}d serwera. Spr\U{00F3}buj ponownie p\U{00F3}\U{017A}niej."
  const NetworkError: string := "Wyst\U{0105}pi\U{0142} b\U{0142}\U{0105}d sieci. Spr\U{00F3}buj ponownie."
  const SubjectPrefix: string := "Nowa wiadomo\U{015B}\U{0107} od "

  /** What the POST yields: an `ok` response, another response with its body's `error`, or a thrown error. */
  datatype PostOutcome = Accepted | Refused(error: Option<string>) | Thrown

  /** The promise's value: success, or failure with a message. */
  datatype SubmitResult = SubmitResult(success: bool, error: Option<string>)

  /** What `submitContactForm` does: the form entries it posts, if it posts, and its result. */
  datatype Submission = Submission(posted: Option<seq<(string, string)>>, result: SubmitResult)

  /** `data.honeypot && data.honeypot.trim().length > 0`. */
  predicate HoneypotFilled(data: ContactFormData) {
    data.honeypot.Some? && data.honeypot.value != "" && |JsString.Trim(data.honeypot.value)| > 0
  }

  /** The `FormData` entries sent. */
  function Payload(data: ContactFormData): seq<(string, string)> {
    var name := JsString.Trim(data.name);
    var email := JsString.Trim(data.email);
    [("name", name), ("email", email), ("message", JsString.Trim(data.message)),
     ("consent", if data.consent then "true" else "false"),
     ("_subject", SubjectPrefix + name), ("_replyto", email)]
  }

  /**
    `submitContactForm`, with the POST's outcome as input: invalid data and a filled
    honeypot fail before any request; otherwise the trimmed entries are posted and the
    response decides.
  */
  function SubmitContactForm(data: ContactFormData, outcome: PostOutcome): (s: Submission)
    ensures FormErrors(data) != map[] ==> s == Submission(None, SubmitResult(false, Some(InvalidFormError)))
    ensures FormErrors(data) == map[] && HoneypotFilled(data) ==>
              s == Submission(None, SubmitResult(false, Some(SpamError)))
    ensures s.posted.Some? <==> FormErrors(data) == map[] && !HoneypotFilled(data)
    ensures s.result.success <==> s.posted.Some? && outcome.Accepted?
    ensures !s.result.success ==> s.result.error.Some? && s.result.error.value != ""
    ensures s.result.success ==> s.result.error.None?
    ensures s.posted.Some? ==> s.posted.value == Payload(data)
  {
    if FormErrors(data) != map[] then Submission(None, SubmitResult(false, Some(InvalidFormError)))
    else if HoneypotFilled(data) then Submission(None, SubmitResult(false, Some(SpamError)))
    else
      var posted := Some(Payload(data));
      match outcome
      case Accepted => Submission(posted, SubmitResult(true, None))
      case Refused(e) =>
        Submission(posted, SubmitResult(false, Some(if e.Some? && e.value != "" then e.value else ServerError)))
      case Thrown => Submission(posted, SubmitResult(false, Some(NetworkError)))
  }

  /** Whatever is posted is valid data with a blank honeypot, sent trimmed, with the name in the subject. */
  lemma PostedDataIsValid(data: ContactFormData, outcome: PostOutcome)
    requires SubmitContactForm(data, outcome).posted.Some?
    ensures data.consent && 2 <= |JsString.Trim(data.name)| <= 50
    ensures EmailShape(JsString.Trim(data.email)) && 10 <= |JsString.Trim(data.message)| <= 1000
    ensures !HoneypotFilled(data)
    ensures var p := SubmitContactForm(data, outcome).posted.value;
            |p| == 6 && p[0] == ("name", JsString.Trim(data.name)) &&
            p[4].1 == SubjectPrefix + p[0].1 && p[3] == ("consent", "true")
    ensures var p := SubmitContactForm(data, outcome).posted.value;
            p[1] == ("email", JsString.Trim(data.email)) &&
            p[2] == ("message", JsString.Trim(data.message)) && p[5] == ("_replyto", p[1].1)
  {
    FormErrorsEmptyIff(data);
  }

  // ---------------------------------------------------------------------------
  // sanitising

  /** `replace(/[<>]/g, '')`. */
  function RemoveAngles(s: string): (r: string)
    ensures '<' !in r && '>' !in r
    ensures |r| <= |s|
    ensures forall c | c != '<' && c != '>' :: multiset(r)[c] == multiset(s)[c]
  {
    if s == [] then []
    else
      assert s == [s[0]] + s[1..];
      (if s[0] == '<' || s[0] == '>' then [] else [s[0]]) + RemoveAngles(s[1..])
  }

  /** A string without angle brackets is left as it is. */
  lemma {:induction false} RemoveAnglesClean(s: string)
    requires '<' !in s && '>' !in s
    ensures RemoveAngles(s) == s
    decreases |s|
  {
    if s != [] {
      RemoveAnglesClean(s[1..]);
      assert s == [s[0]] + s[1..];
    }
  }

  /** `sanitizeInput`: trims, then drops every `<` and `>`. */
  function SanitizeInput(input: string): (r: string)
    ensures '<' !in r && '>' !in r
    ensures |r| <= |input|
    ensures forall c | c != '<' && c != '>' :: multiset(r)[c] == multiset(JsString.Trim(input))[c]
  {
    RemoveAngles(JsString.Trim(input))
  }

  /** Sanitising a trimmed string without angle brackets changes nothing. */
  lemma SanitizeClean(s: string)
    requires '<' !in s && '>' !in s
    requires s == [] || (!JsString.IsWhitespace(s[0]) && !JsString.IsWhitespace(s[|s| - 1]))
    ensures SanitizeInput(s) == s
  {
    JsString.TrimOfTrimmed(s);
    RemoveAnglesClean(s);
  }

  /** Lower-casing leaves no upper-case letter and adds no angle bracket. */
  lemma LowerCaseClean(e: string)
    requires '<' !in e && '>' !in e
    ensures forall k | 0 <= k < |e| :: !('A' <= JsString.ToLower(e)[k] <= 'Z')
    ensures '<' !in JsString.ToLower(e) && '>' !in JsString.ToLower(e)
  {
    var l := JsString.ToLower(e);
    forall k | 0 <= k < |l|
      ensures !('A' <= l[k] <= 'Z') && l[k] != '<' && l[k] != '>'
    {
      assert e[k] in e;
    }
  }

  /** `formatFormData`: sanitised strings, a lower-cased e-mail and an honeypot defaulting to `""`. */
  function FormatFormData(data: ContactFormData): (r: ContactFormData)
    ensures r.name == SanitizeInput(data.name) && r.message == SanitizeInput(data.message)
    ensures r.email == JsString.ToLower(SanitizeInput(data.email))
    ensures forall k | 0 <= k < |r.email| :: !('A' <= r.email[k] <= 'Z')
    ensures '<' !in r.email && '>' !in r.email
    ensures r.consent == data.consent
    ensures r.honeypot.Some?
    ensures r.honeypot.value == "" <==> data.honeypot.None? || data.honeypot.value == ""
    ensures data.honeypot.Some? && data.honeypot.value != "" ==> r.honeypot == data.honeypot
  {
    var email := SanitizeInput(data.email);
    LowerCaseClean(email);
    ContactFormData(
      SanitizeInput(data.name),
      JsString.ToLower(email),
      SanitizeInput(data.message),
      data.consent,
      Some(if data.honeypot.Some? && data.honeypot.value != "" then data.honeypot.value else ""))
  }

  // ---------------------------------------------------------------------------
  // rate limit

  const RateLimitKey: string := "form_submission_timestamp"
  /** One minute, in milliseconds. */
  const RateLimitDuration: int := 60000

  /**
    `checkRateLimit` at time `now` (milliseconds): free outside a browser or with no
    stored timestamp; otherwise free only if strictly more than a minute has passed.
    A timestamp `parseInt` cannot read compares as `NaN`, which is never greater.
  */
  function CheckRateLimit(storage: BrowserStorage.Storage, inBrowser: bool, now: int): bool
    reads storage
  {
    if !inBrowser then true
    else
      var last := storage.Get(RateLimitKey);
      if last.None? || last.value == "" then true
      else
        match JsString.ParseInt(last.value)
        case None => false
        case Some(t) => now - t > RateLimitDuration
  }

  /** `setRateLimit`: records `now` in a browser, does nothing elsewhere. */
  method SetRateLimit(storage: BrowserStorage.Storage, inBrowser: bool, now: nat)
    modifies storage
    ensures inBrowser ==> storage.items == old(storage.items)[RateLimitKey := JsString.NatToString(now)]
    ensures !inBrowser ==> storage.items == old(storage.items)
  {
    if inBrowser {
      storage.SetItem(RateLimitKey, JsString.NatToString(now));
    }
  }

  /** After recording `last`, a later check passes exactly when more than a minute has gone by. */
  lemma RateLimitAfterSet(storage: BrowserStorage.Storage, last: nat, now: int)
    requires storage.Get(RateLimitKey) == Some(JsString.NatToString(last))
    ensures CheckRateLimit(storage, true, now) <==> now - last > RateLimitDuration
  {
    JsString.ParseIntOfNatToString(last);
  }

  /** A stored timestamp with no digits at all blocks every later submission. */
  lemma UnreadableTimestampBlocks(storage: BrowserStorage.Storage, now: int)
    requires var last := storage.Get(RateLimitKey);
             last.Some? && last.value != "" && forall k | 0 <= k < |last.value| :: !JsString.IsDigit(last.value[k])
    ensures !CheckRateLimit(storage, true, now)
  {
  }

  /** A first submission passes; a second one passes exactly when more than a minute has gone by. */
  method SubmitTwice(first: nat, second: int) returns (ok1: bool, ok2: bool)
    ensures ok1
    ensures ok2 <==> second - first > RateLimitDuration
  {
    var storage := new BrowserStorage.Storage(map[]);
    ok1 := CheckRateLimit(storage, true, first);
    SetRateLimit(storage, true, first);
    ok2 := CheckRateLimit(storage, true, second);
    RateLimitAfterSet(storage, first, second);
  }
}
