/**
  The contact form component of `src/components/contact/ContactForm.tsx`: its own
  four-field validator, the input-change handler, and the `mailto:` link it opens on
  submit (the shape of section 2 of RFC 6068: `mailto:<to>?subject=<s>&body=<b>`).
*/
module ContactFormComponent {
  import opened Wrappers
  import JsString
  import Form

  /** The address every message goes to. */
  const EmailAddress: string := "tomasz.chromy@outlook.com"

  lemma AddressHasNoQuery()
    ensures '?' !in EmailAddress
  {
  }

  /** The form's inputs, by their `name` attribute; `consent` is the checkbox. */
  datatype Input = NameInput | EmailInput | MessageInput | ConsentInput

  // ---------------------------------------------------------------------------
  // the four checks

  /** A name is refused when it trims to fewer than 2 characters (an empty trim included). */
  predicate NameError(name: string) {
    |JsString.Trim(name)| < 2
  }

  /** An e-mail is refused when it trims to nothing or, untrimmed, does not match the pattern. */
  predicate EmailError(email: string) {
    JsString.Trim(email) == [] || !Form.MatchesEmail(email)
  }

  /** A message is refused when it trims to fewer than 10 characters (an empty trim included). */
  predicate MessageError(message: string) {
    |JsString.Trim(message)| < 10
  }

  /** The e-mail check in plain words: the untrimmed string has the e-mail shape. */
  lemma EmailErrorIff(email: string)
    ensures EmailError(email) <==> !Form.EmailShape(email)
  {
    Form.MatchesEmailIffShape(email);
    if Form.EmailShape(email) {
      assert !JsString.IsWhitespace(email[0]);
      assert !JsString.AllWhitespace(email);
    }
  }

  /** An accepted e-mail has no surrounding white space: the pattern is tried on the raw input. */
  lemma AcceptedEmailIsTrimmed(email: string)
    requires !EmailError(email)
    ensures JsString.Trim(email) == email
  {
    EmailErrorIff(email);
    JsString.TrimOfTrimmed(email);
  }

  /** Whatever the component accepts, and is short enough, the library's rules accept too. */
  lemma ComponentWithinLibrary(email: string, message: string)
    requires !EmailError(email) && |email| <= 100
    requires !MessageError(message) && |JsString.Trim(message)| <= 1000
    ensures Form.ValidateField(Form.Email, Form.Text(email)).None?
    ensures Form.ValidateField(Form.Message, Form.Text(message)).None?
  {
    AcceptedEmailIsTrimmed(email);
    EmailErrorIff(email);
    Form.EmailValid(email);
    Form.MessageValid(message);
  }

  /** Every name the library accepts, the component accepts. */
  lemma LibraryNameAccepted(name: string)
    requires Form.ValidateField(Form.Name, Form.Text(name)).None?
    ensures !NameError(name)
  {
    Form.NameValid(name);
  }

  // ---------------------------------------------------------------------------
  // the mailto link

  /**
    The subject line: the template with its first `{name}` replaced by the trimmed name,
    in which `replace` expands `$` patterns.
  */
  function SubjectText(t: string -> string, name: string): string {
    JsString.ReplaceFirst(t("form.emailSubject"), "{name}", JsString.Trim(name))
  }

  /**
    For a template ending in `{name}` with no `{` before it, the subject is the template's
    text followed by the trimmed name, with its `$` patterns substituted.
  */
  lemma SubjectSubstitutes(t: string -> string, name: string, a: string)
    requires t("form.emailSubject") == a + "{name}"
    requires '{' !in a
    ensures SubjectText(t, name) == a + JsString.Substitute(JsString.Trim(name), "{name}", a, "")
  {
    var template := a + "{name}";
    var pat := "{name}";
    assert JsString.OccursAt(template, pat, |a|) by {
      assert template[|a|..|a| + |pat|] == pat;
    }
    forall j | 0 <= j < |a| ensures !JsString.OccursAt(template, pat, j) {
      assert template[j] == a[j];
      if j + |pat| <= |template| {
        assert template[j..j + |pat|][0] == template[j];
      }
    }
    JsString.ReplaceFirstSpec(template, pat, JsString.Trim(name));
    assert template[..|a|] == a && template[|a| + |pat|..] == [];
  }

  /** A name written `a$$b` appears in the subject as `a$b`. */
  lemma SubjectDollarName(t: string -> string)
    requires t("form.emailSubject") == "Od {name}"
    ensures SubjectText(t, "a$$b") == "Od a$b"
  {
    assert "Od {name}" == "Od " + "{name}";
    SubjectSubstitutes(t, "a$$b", "Od ");
    assert JsString.Trim("a$$b") == "a$$b" by {
      JsString.TrimOfTrimmed("a$$b");
    }
    JsString.SubstituteDoubleDollar("{name}", "Od ", "");
  }

  /** The body: three labelled lines with the trimmed values. */
  function BodyText(t: string -> string, name: string, email: string, message: string): string {
    var nameLine := t("form.fields.name") + ": " + JsString.Trim(name) + "\n";
    var emailLines := t("form.fields.email") + ": " + JsString.Trim(email) + "\n\n";
    var messageLines := t("form.fields.message") + ":\n" + JsString.Trim(message);
    nameLine + emailLines + messageLines
  }

  /** The body as its lines joined by line breaks. */
  lemma BodyAsLines(t: string -> string, name: string, email: string, message: string)
    ensures BodyText(t, name, email, message) ==
              (t("form.fields.name") + ": " + JsString.Trim(name)) + ['\n'] +
              ((t("form.fields.email") + ": " + JsString.Trim(email)) + ['\n'] +
               (['\n'] + ((t("form.fields.message") + ":") + ['\n'] + JsString.Trim(message))))
  {
    var l2 := t("form.fields.email") + ": " + JsString.Trim(email);
    var l3 := t("form.fields.message") + ":";
    var messageLines := t("form.fields.message") + ":\n" + JsString.Trim(message);
    assert messageLines == l3 + ['\n'] + JsString.Trim(message) by {
      assert t("form.fields.message") + ":\n" == l3 + ['\n'];
    }
    assert (l2 + "\n\n") + messageLines == (l2 + ['\n']) + (['\n'] + messageLines);
  }

  /**
    The body reads back line by line: the labelled name, the labelled e-mail, a blank
    line, the message's label, then the lines of the trimmed message.
  */
  lemma BodyLines(t: string -> string, name: string, email: string, message: string)
    requires '\n' !in t("form.fields.name") && '\n' !in t("form.fields.email") && '\n' !in t("form.fields.message")
    requires '\n' !in JsString.Trim(name) && '\n' !in JsString.Trim(email)
    ensures JsString.Split(BodyText(t, name, email, message), '\n') ==
              [t("form.fields.name") + ": " + JsString.Trim(name),
               t("form.fields.email") + ": " + JsString.Trim(email),
               "",
               t("form.fields.message") + ":"] + JsString.Split(JsString.Trim(message), '\n')
  {
    var l1 := t("form.fields.name") + ": " + JsString.Trim(name);
    var l2 := t("form.fields.email") + ": " + JsString.Trim(email);
    var l3 := t("form.fields.message") + ":";
    var m := JsString.Trim(message);
    var r3 := l3 + ['\n'] + m;
    var r2 := ['\n'] + r3;
    var r1 := l2 + ['\n'] + r2;
    BodyAsLines(t, name, email, message);
    var lines := JsString.Split(m, '\n');
    JsString.SplitAfterPiece(l3, '\n', m);
    assert r2 == [] + ['\n'] + r3;
    JsString.SplitAfterPiece([], '\n', r3);
    JsString.SplitAfterPiece(l2, '\n', r2);
    JsString.SplitAfterPiece(l1, '\n', r1);
    PrependFour(l1, l2, [], l3, lines);
  }

  /** Prepending four elements one at a time is prepending them together. */
  lemma PrependFour<T>(a: T, b: T, c: T, d: T, xs: seq<T>)
    ensures [a] + ([b] + ([c] + ([d] + xs))) == [a, b, c, d] + xs
  {
  }

  /** `encodeURIComponent` escapes `?` and `&`, so an encoded value holds neither. */
  predicate EncodedSafe(s: string) {
    '?' !in s && '&' !in s
  }

  /** The link, from already-encoded subject and body. */
  function Mailto(to: string, subject: string, body: string): string {
    "mailto:" + to + "?subject=" + subject + "&body=" + body
  }

  /** Reads a link of that shape back into its recipient, subject and body. */
  function ParseMailto(url: string): Option<(string, string, string)> {
    var parts := JsString.Split(url, '?');
    if |parts| != 2 || !("mailto:" <= parts[0]) then None
    else
      var params := JsString.Split(parts[1], '&');
      if |params| != 2 || !("subject=" <= params[0]) || !("body=" <= params[1]) then None
      else Some((parts[0][7..], params[0][8..], params[1][5..]))
  }

  /** A link built from a recipient without `?` and safely encoded values reads back to its parts. */
  lemma MailtoRoundTrip(to: string, subject: string, body: string)
    requires '?' !in to
    requires EncodedSafe(subject) && EncodedSafe(body)
    ensures ParseMailto(Mailto(to, subject, body)) == Some((to, subject, body))
  {
    var head := "mailto:" + to;
    var query := "subject=" + subject + "&body=" + body;
    var p1 := "subject=" + subject;
    var p2 := "body=" + body;
    assert '?' !in head by {
      forall k | 0 <= k < |head| ensures head[k] != '?' {
        if k >= 7 { assert head[k] == to[k - 7]; }
      }
    }
    assert '?' !in query by {
      forall k | 0 <= k < |query| ensures query[k] != '?' {
        if 8 <= k < 8 + |subject| { assert query[k] == subject[k - 8]; }
        if k >= 14 + |subject| { assert query[k] == body[k - 14 - |subject|]; }
      }
    }
    assert '&' !in p1 by {
      forall k | 0 <= k < |p1| ensures p1[k] != '&' {
        if k >= 8 { assert p1[k] == subject[k - 8]; }
      }
    }
    assert '&' !in p2 by {
      forall k | 0 <= k < |p2| ensures p2[k] != '&' {
        if k >= 5 { assert p2[k] == body[k - 5]; }
      }
    }
    assert JsString.Join([head, query], '?') == Mailto(to, subject, body);
    JsString.SplitJoin([head, query], '?');
    assert JsString.Join([p1, p2], '&') == query;
    JsString.SplitJoin([p1, p2], '&');
  }

  // ---------------------------------------------------------------------------
  // the component

  class ContactForm {
    var name: string
    var email: string
    var message: string
    var consent: bool
    /** The displayed errors; a cleared error is absent. */
    var errors: map<Input, string>
    /** `window.location.href` once a link has been opened. */
    var location: Option<string>

    constructor ()
      ensures name == "" && email == "" && message == "" && !consent
      ensures errors == map[] && location == None
    {
      name, email, message, consent := "", "", "", false;
      errors := map[];
      location := None;
    }

    /**
      `handleInputChange`: stores the new value of one input (the checkbox's `checked`,
      another input's text) and clears that input's error if one is shown.
    */
    method HandleInputChange(input: Input, value: string, checked: bool)
      modifies this
      ensures name == (if input == NameInput then value else old(name))
      ensures email == (if input == EmailInput then value else old(email))
      ensures message == (if input == MessageInput then value else old(message))
      ensures consent == (if input == ConsentInput then checked else old(consent))
      ensures input !in errors || errors[input] == ""
      ensures forall i | i != input :: (i in errors <==> i in old(errors)) && (i in errors ==> errors[i] == old(errors)[i])
      ensures location == old(location)
    {
      match input {
        case NameInput => name := value;
        case EmailInput => email := value;
        case MessageInput => message := value;
        case ConsentInput => consent := checked;
      }
      if input in errors && errors[input] != "" {
        errors := errors - {input};
      }
    }

    /**
      The errors shown are exactly those of the four checks that fail on the current
      values, each with its translated message.
    */
    predicate ShowsFailedChecks(t: string -> string)
      reads this
    {
      && (NameInput in errors <==> NameError(name))
      && (EmailInput in errors <==> EmailError(email))
      && (MessageInput in errors <==> MessageError(message))
      && (ConsentInput in errors <==> !consent)
      && (forall i | i in errors :: errors[i] == t(ErrorKey(i)))
    }

    /** All four checks pass on the current values. */
    predicate Passes()
      reads this
    {
      !NameError(name) && !EmailError(email) && !MessageError(message) && consent
    }

    /** When the errors show the failed checks, there are none exactly when every check passes. */
    lemma NoErrorsIffPasses(t: string -> string)
      requires ShowsFailedChecks(t)
      ensures errors == map[] <==> Passes()
    {
      if Passes() {
        assert forall i: Input :: i !in errors;
      }
    }

    /**
      `validateForm`: replaces the errors with exactly those of the four checks that fail,
      each with its translated message, and answers whether there are none.
    */
    method ValidateForm(t: string -> string) returns (valid: bool)
      modifies this
      ensures ShowsFailedChecks(t)
      ensures valid <==> errors == map[]
      ensures name == old(name) && email == old(email) && message == old(message) && consent == old(consent)
      ensures location == old(location)
    {
      var nameBad, emailBad, messageBad := NameError(name), EmailError(email), MessageError(message);
      var newErrors: map<Input, string> := map[];
      if nameBad {
        newErrors := newErrors[NameInput := t(ErrorKey(NameInput))];
      }
      if emailBad {
        newErrors := newErrors[EmailInput := t(ErrorKey(EmailInput))];
      }
      if messageBad {
        newErrors := newErrors[MessageInput := t(ErrorKey(MessageInput))];
      }
      if !consent {
        newErrors := newErrors[ConsentInput := t(ErrorKey(ConsentInput))];
      }
      forall i | i in newErrors ensures newErrors[i] == t(ErrorKey(i)) {
        match i {
          case NameInput =>
          case EmailInput =>
          case MessageInput =>
          case ConsentInput =>
        }
      }
      errors := newErrors;
      valid := |newErrors.Keys| == 0;
    }

    /**
      `handleSubmit`: an invalid form goes no further; a valid one opens the `mailto:`
      link with the encoded subject and body.
    */
    method HandleSubmit(t: string -> string, encode: string -> string)
      modifies this
      ensures Passes() ==> location == Some(Mailto(EmailAddress, encode(SubjectText(t, name)),
                                                   encode(BodyText(t, name, email, message))))
      ensures !Passes() ==> location == old(location)
      ensures ShowsFailedChecks(t)
      ensures name == old(name) && email == old(email) && message == old(message) && consent == old(consent)
    {
      var valid := ValidateForm(t);
      NoErrorsIffPasses(t);
      if !valid {
        return;
      }
      var subject := encode(SubjectText(t, name));
      var body := encode(BodyText(t, name, email, message));
      location := Some(Mailto(EmailAddress, subject, body));
    }
  }

  /** The translation key of each input's error message. */
  function ErrorKey(i: Input): string {
    match i
    case NameInput => "form.errors.name"
    case EmailInput => "form.errors.email"
    case MessageInput => "form.errors.message"
    case ConsentInput => "form.errors.consent"
  }

  /**
    A valid submission opens a link that reads back to the site's address and the
    encoded subject and body, whatever the translations say.
  */
  method SubmitOpensLink(t: string -> string, encode: string -> string, name: string, email: string, message: string)
    returns (link: Option<(string, string, string)>)
    requires forall s :: EncodedSafe(encode(s))
    requires !NameError(name) && !EmailError(email) && !MessageError(message)
    ensures link == Some((EmailAddress, encode(SubjectText(t, name)), encode(BodyText(t, name, email, message))))
  {
    var form := new ContactForm();
    form.HandleInputChange(NameInput, name, false);
    form.HandleInputChange(EmailInput, email, false);
    form.HandleInputChange(MessageInput, message, false);
    form.HandleInputChange(ConsentInput, "", true);
    form.HandleSubmit(t, encode);
    var subject, body := encode(SubjectText(t, name)), encode(BodyText(t, name, email, message));
    assert EncodedSafe(subject) && EncodedSafe(body);
    AddressHasNoQuery();
    MailtoRoundTrip(EmailAddress, subject, body);
    link := ParseMailto(form.location.value);
  }

  /** Without consent no link is opened, and the consent error is shown. */
  method SubmitWithoutConsent(t: string -> string, encode: string -> string, name: string, email: string, message: string)
    returns (link: Option<string>, consentError: bool)
    ensures link == None && consentError
  {
    var form := new ContactForm();
    form.HandleInputChange(NameInput, name, false);
    form.HandleInputChange(EmailInput, email, false);
    form.HandleInputChange(MessageInput, message, false);
    form.HandleSubmit(t, encode);
    link := form.location;
    consentError := ConsentInput in form.errors;
  }
}
