# TomSoft website: a Dafny model of its client-side logic

The TomSoft website (tomsoft-website.com) is a Next.js marketing site written in TypeScript.
This project models the parts of the site that carry logic rather than layout. It states and
proves, in Dafny, what each part promises:

- **Translations** (`I18n`): the i18n provider.
  - It looks a dotted key up in a nested JSON bundle and interpolates `{{name}}` parameters.
  - A key without a string answer is shown as itself.
  - It chooses the first locale from the saved choice, then the browser language, then `pl`.
  - It persists the user's choice.
  - It caches each loaded bundle, so a locale is fetched at most once.
- **Cookie consent** (`CookieConsent`, `Analytics`).
  - The banner shows only while there is no stored answer.
  - It records `all`, `necessary` or `declined` with a date, and reports the answer.
  - Only `all` starts analytics.
  - The analytics glue sends events only in a browser where Plausible is loaded.
  - The scroll tracker reports each of the seven page sections at most once.
- **Form validation** (`Form`, `ContactFormComponent`).
  - The rule table of `src/lib/form.ts` applies its checks in order and reports the first that fails, with its Polish message.
  - `submitContactForm` has early failures for invalid data and a filled honeypot.
  - The module also covers sanitising and the one-minute rate limit.
  - The contact form component has its own four checks and builds the `mailto:` link it opens.
- **Interactive sections**:
  - the Hero typewriter, which types, pauses, deletes and moves to the next word;
  - the Testimonials carousel (modular index, autoplay flag);
  - the FAQ accordion (at most one item open);
  - the language switcher (pressed and disabled buttons, and the `pl`/`en` toggle).
- **SEO** (`Seo`):
  - page metadata defaulting (title, description, image, robots flags);
  - the numbered schema.org breadcrumb list.

The JavaScript built-ins this logic relies on live in `JsString`:
- `trim` with ECMAScript's white-space set;
- `split` on one character;
- `indexOf`;
- `replace` of the first occurrence and global `replace`;
- `parseInt`, where `None` stands for `NaN`;
- the decimal `toString` of a non-negative integer;
- ASCII `toLowerCase`.

`localStorage` is the `BrowserStorage.Storage` class. The stateful parts are Dafny classes whose methods change their fields exactly as the React state setters do. The rest are functions, and both are tied together by lemmas.

Inputs from outside the program are parameters of the model:
- the network outcome of a fetch or a POST;
- the current time;
- `navigator.language`;
- whether the code runs in a browser and whether Plausible is loaded;
- `encodeURIComponent`;
- the translation function `t` that components obtain from `useTranslation`.

Hero and ContactForm receive `t` as a function `string -> string`. In the running site it is `I18n.Provider.T(key, None)` of the provider.

## Model

| member | source | states |
|---|---|---|
| JsString.Trim | src/lib/form.ts:90 | The result is never longer than the input and starts and ends with a non-white-space character. It is empty exactly when the input is all white space. Its partner `TrimRemovesSurroundingWhitespace` ties it to the input. |
| JsString.TrimStartSuffix | src/lib/form.ts:90 | Stripping leading white space keeps a suffix of the input. |
| JsString.TrimStartStrips | src/lib/form.ts:90 | Everything stripped from the front is white space. |
| JsString.TrimEnd | src/lib/form.ts:90 | Stripping trailing white space keeps a prefix of the input, which ends in a non-white-space character. |
| JsString.TrimEndStrips | src/lib/form.ts:90 | Everything stripped from the end is white space. |
| JsString.TrimRemovesSurroundingWhitespace | src/lib/form.ts:90 | `trim` returns a slice of the input, and everything before and after that slice is white space. |
| JsString.TrimOfTrimmed | src/lib/form.ts:108 | A string already free of surrounding white space is unchanged by `trim`. |
| JsString.TrimIdempotent | src/lib/form.ts:108 | `trim` is idempotent. |
| JsString.Split | src/lib/i18n.tsx:29 | `split` on a character yields at least one piece, and no piece contains the separator. |
| JsString.JoinSplit | src/lib/i18n.tsx:29 | Joining the pieces of a split with the separator gives back the string. |
| JsString.SplitJoin | src/lib/i18n.tsx:29 | Splitting a join of separator-free pieces gives back the pieces. |
| JsString.SplitNoSeparator | src/lib/i18n.tsx:29 | A string without the separator splits into itself alone. |
| JsString.SplitAfterPiece | src/lib/i18n.tsx:29 | Splitting `a + sep + t` puts the separator-free `a` in front of the pieces of `t`. |
| JsString.SplitFirstPiece | src/lib/i18n.tsx:108 | The first piece of a split is a prefix of the text. It is the whole text, or it is followed by the separator. |
| JsString.IndexOf | src/components/contact/ContactForm.tsx:87 | A found index is an occurrence with no earlier occurrence. `None` means there is no occurrence at all. |
| JsString.ReplaceFirstSpec | src/components/contact/ContactForm.tsx:87 | `replace` with a string replaces exactly the first occurrence and keeps the text around it. The inserted text is the replacement with `$$`, `$&`, `` $` `` and `$'` expanded to `$`, the match, the text before it and the text after it. Without an occurrence, the text is unchanged. |
| JsString.ReplaceFirst | src/components/contact/ContactForm.tsx:87 | `String.prototype.replace` with a string pattern. Its partner lemma is `ReplaceFirstSpec`. |
| JsString.Substitute | src/components/contact/ContactForm.tsx:87 | The replacement patterns of `replace` for a pattern without capture groups. Its partner lemmas are `SubstituteDollarFree`, `SubstituteDoubleDollar` and `SubstituteMatch`. |
| JsString.SubstituteDollarFree | src/components/contact/ContactForm.tsx:87 | A replacement without `$` is inserted literally. |
| JsString.SubstituteDoubleDollar | src/components/contact/ContactForm.tsx:87 | `a$$b` is inserted as `a$b`. |
| JsString.SubstituteMatch | src/components/contact/ContactForm.tsx:87 | `$&` inserts the matched text. |
| JsString.ReplaceAll | src/lib/i18n.tsx:48 | A global `replace` of a literal pattern. Its partner lemmas are `ReplaceAllNoMatch`, `ReplaceAllSelf`, `ReplaceAllWhole` and `I18n.ReplaceAllAtFirst`. |
| JsString.ReplaceAllNoMatch | src/lib/i18n.tsx:48 | A global replace of a pattern that never occurs changes nothing. |
| JsString.NoOccurrenceWithoutFirstChar | src/lib/i18n.tsx:48 | A pattern whose first character is absent from the text never occurs in it. |
| JsString.ReplaceAllSelf | src/lib/i18n.tsx:48 | Globally replacing a pattern by itself changes nothing. |
| JsString.ReplaceAllWhole | src/lib/i18n.tsx:48 | A text that is exactly the pattern becomes the replacement. |
| JsString.NatToString | src/lib/form.ts:224 | The decimal form of a non-negative integer is a non-empty digit string with no leading zero. |
| JsString.DigitsValueOfNatToString | src/lib/form.ts:224 | The digits of `n` have value `n`. |
| JsString.LeadingDigits | src/lib/form.ts:218 | This is the longest prefix made of digits: it is followed by a non-digit or by the end. |
| JsString.ParseInt | src/lib/form.ts:218 | A string without any digit parses to `NaN` (`None`). |
| JsString.LeadingDigitsOfDigits | src/lib/form.ts:218 | An all-digit string is its own leading digit run. |
| JsString.ParseIntOfNatToString | src/lib/form.ts:218-224 | `parseInt` of a stored `Date.now().toString()` gives back the same number. |
| JsString.ToLower | src/lib/form.ts:201 | `toLowerCase` keeps the length and leaves no upper-case letter. Each upper-case letter becomes the letter 32 code points on, and every other character is unchanged. |
| JsString.ToLowerIdempotent | src/lib/form.ts:201 | Lower-casing twice is lower-casing once. |
| BrowserStorage.Storage.constructor | src/lib/i18n.tsx:107 | Storage starts with the given items. |
| BrowserStorage.Storage.Get | src/lib/i18n.tsx:107 | `getItem` answers exactly for stored keys, with the stored value. It never throws (see "## Left out"). |
| BrowserStorage.Storage.SetItem | src/lib/i18n.tsx:90 | `setItem` overwrites one key and leaves the others. It never throws (see "## Left out"). |
| I18n.DescendAppend | src/lib/i18n.tsx:32-38 | Walking `a + c` is walking `a`, then `c` from where `a` stopped. |
| I18n.LookupFoundOnlyThroughNodes | src/lib/i18n.tsx:32-40 | A found string is a leaf at the path's end. Every proper prefix of the path leads to a nested object containing the next key. |
| I18n.LookupFails | src/lib/i18n.tsx:33-40 | The lookup is undefined when a segment is missing, a string comes before the last segment, or the path ends on an object. |
| I18n.DescendNest | src/lib/i18n.tsx:28-41 | A bundle built along a path answers that path with its string. |
| I18n.GetNestedValue | src/lib/i18n.tsx:28-41 | The loop over the dot-split path returns exactly the string leaf that the recursive walk finds. |
| I18n.Placeholder | src/lib/i18n.tsx:48 | The token for `name` is `{{name}}`, four characters longer than the name. |
| I18n.Interpolate | src/lib/i18n.tsx:44-50 | Without parameters, or with none at all, the text is returned as it is. Its partner lemmas `InterpolateSubstitutes` and `InterpolateFirstOccurrence` state the substitution. |
| I18n.InterpolateBraceFree | src/lib/i18n.tsx:44-50 | A text with no `{` is unchanged by any parameters. |
| I18n.PlaceholderShape | src/lib/i18n.tsx:48 | The braces of a placeholder for a brace-free name stand exactly in its first two and last two positions. |
| I18n.PlaceholdersDoNotOverlap | src/lib/i18n.tsx:47-49 | Occurrences of the placeholders of two different brace-free names never overlap. |
| I18n.ReplaceAllCopiesPrefix | src/lib/i18n.tsx:48 | A global replace copies unchanged any prefix in which no occurrence starts. |
| I18n.OccursAfterPrefix | src/lib/i18n.tsx:48 | An occurrence in `y` is an occurrence in `x + y`, shifted by the length of `x`. |
| I18n.ReplaceAllKeeps | src/lib/i18n.tsx:48 | An occurrence that no match of the pattern overlaps survives a global replace. |
| I18n.ReplaceAllAtFirst | src/lib/i18n.tsx:48 | A global replace copies the text before the first occurrence, inserts the replacement, and goes on after the match. |
| I18n.InterpolateFirstOccurrence | src/lib/i18n.tsx:44-50 | With one parameter, the text before its first placeholder is kept, the placeholder becomes the value, and the rest is interpolated in turn. |
| I18n.InterpolateSubstitutes | src/lib/i18n.tsx:44-50 | With one parameter, `a{{k}}b` becomes `a`, the value, then `b`, when neither `a` nor `b` holds a `{`. |
| I18n.InterpolateKeepsUnmatched | src/lib/i18n.tsx:44-50 | A placeholder whose name is not among the parameters stays in the text. |
| I18n.Translate | src/lib/i18n.tsx:96-103 | `t` over a bundle. Its partner lemmas are `TranslateSpec`, `TranslateEmptyBundle` and `TranslateNested`. |
| I18n.TranslateSpec | src/lib/i18n.tsx:96-103 | `t` returns the key itself when the lookup is undefined. Otherwise it returns the interpolated leaf. |
| I18n.TranslateEmptyBundle | src/lib/i18n.tsx:96-101 | With the empty bundle used after a failed fetch, every key is shown as itself. |
| I18n.TranslateNested | src/lib/i18n.tsx:96-103 | A two-segment key of a bundle built along it translates to its interpolated string. |
| I18n.GreetingInterpolation | src/lib/i18n.tsx:44-50 | `Hello {{name}}` with `name = Ann` reads `Hello Ann`. |
| I18n.GreetingExample | src/lib/i18n.tsx:96-103 | The key `hero.title` of `{"hero": {"title": "Hello {{name}}"}}` reads `Hello Ann`. |
| I18n.BrowserPrefix | src/lib/i18n.tsx:108 | The language part of `navigator.language` is a prefix containing no `-`. It is the whole language, or it is followed by a `-`. |
| I18n.InitialLocale | src/lib/i18n.tsx:110-114 | The first locale is always supported. It is the saved choice if that is supported, otherwise a supported browser language, otherwise `pl`. |
| I18n.TranslationCache.constructor | src/lib/i18n.tsx:25 | The module cache starts empty. |
| I18n.Provider.constructor | src/lib/i18n.tsx:57-59 | The provider starts in `pl` with no translations and loading on. |
| I18n.Provider.T | src/lib/i18n.tsx:96-103 | The context's `t` over the active bundle: a key whose lookup is undefined is shown as itself, and a key that reaches a string leaf is shown as that leaf interpolated. It is `Translate` over `translations`, whose promises `TranslateSpec` states; `LoadTwiceRequestsOnce` calls it after a load. |
| I18n.Provider.SetLocale | src/lib/i18n.tsx:87-93 | A supported locale becomes current, is saved under `locale` and sets the document language. An unsupported one changes nothing. |
| I18n.Provider.Initialize | src/lib/i18n.tsx:106-118 | The mount effect sets the locale and the document language from the saved choice and the browser language. |
| I18n.Provider.LoadTranslations | src/lib/i18n.tsx:62-84 | A cached bundle is activated without a request. Otherwise the bundle is requested once: it is cached and activated on success, and replaced by the empty bundle, uncached, on failure. Loading ends in every case. |
| I18n.LoadTwiceRequestsOnce | src/lib/i18n.tsx:62-84 | Loading a locale twice, the first time successfully, makes one request, and `t` then answers from that bundle. |
| I18n.ChoiceSurvivesNewSession | src/lib/i18n.tsx:87-118 | A supported locale chosen in one session is the first locale of the next, whatever the browser says. |
| Analytics.ParseChoice | src/lib/analytics.ts:132 | A stored string is read as an answer only if it is that answer's string. |
| Analytics.ParseChoiceString | src/components/contact/CookieConsent.tsx:31 | Storing an answer and reading it back gives that answer. |
| Analytics.ChoiceStringInjective | src/components/contact/CookieConsent.tsx:31 | Different answers are stored as different strings. |
| Analytics.TrackEvent | src/lib/analytics.ts:6-10 | At most one event is sent, and one is sent exactly in a browser with Plausible. It carries the given name and properties. |
| Analytics.InitAnalytics | src/lib/analytics.ts:109-115 | The trackers are installed only in a browser. Its partner is `InitGDPRAnalytics`. |
| Analytics.InitGDPRAnalytics | src/lib/analytics.ts:125-129 | Analytics start exactly with consent in a browser. |
| Analytics.TrackCookieConsent | src/lib/analytics.ts:132-147 | Only `all` starts analytics. `declined` sends `Cookie Decline` without properties. The other two send `Cookie Accept` with their type. |
| Analytics.IsAnalyticsEnabled | src/lib/analytics.ts:150-155 | Analytics are enabled in a browser whose stored answer is `all`. Its partner lemmas are `ConsentGateAgrees` and `EnabledOnlyByAll`. |
| Analytics.ConsentGateAgrees | src/lib/analytics.ts:150-155 | After an answer is stored, analytics count as enabled exactly when reporting the answer started them. |
| Analytics.EnabledOnlyByAll | src/lib/analytics.ts:150-155 | Analytics are enabled only in a browser whose stored answer is `all`. |
| Analytics.NewlyReported | src/lib/analytics.ts:83-90 | The sections one observer batch reports. Its partner lemma is `NewlyReportedSpec`. |
| Analytics.NewlyReportedSpec | src/lib/analytics.ts:83-90 | A batch reports a section exactly when it was untracked and some entry qualifies for it. Nothing is reported twice. |
| Analytics.ScrollTracker.constructor | src/lib/analytics.ts:79 | The tracker starts with nothing tracked. |
| Analytics.ScrollTracker.Observe | src/lib/analytics.ts:82-91 | The observer callback appends the newly reported sections. Each watched section stays reported at most once, and the tracked set stays equal to the reported ones. |
| CookieConsent.Banner.constructor | src/components/contact/CookieConsent.tsx:11-13 | The banner starts hidden, without settings and without an answer. |
| CookieConsent.Banner.Rendered | src/components/contact/CookieConsent.tsx:61-73 | Nothing is rendered while hidden. When visible, the settings panel is rendered exactly when settings are open. |
| CookieConsent.Banner.Mount | src/components/contact/CookieConsent.tsx:15-27 | Without a stored answer the banner shows. With one, the answer is restored and the banner stays hidden. |
| CookieConsent.Banner.HandleConsent | src/components/contact/CookieConsent.tsx:29-39 | A real answer stores its value and date and reports it. Any call records the answer and hides the banner and the settings. |
| CookieConsent.Banner.AcceptAll | src/components/contact/CookieConsent.tsx:41-43 | This stores `all` and starts analytics in a browser. The events sent are exactly those of `trackCookieConsent('all')`. |
| CookieConsent.Banner.AcceptNecessary | src/components/contact/CookieConsent.tsx:45-47 | This stores `necessary` and never starts analytics. The events sent are exactly those of `trackCookieConsent('necessary')`. |
| CookieConsent.Banner.Decline | src/components/contact/CookieConsent.tsx:49-51 | This stores `declined` and never starts analytics. The events sent are exactly those of `trackCookieConsent('declined')`. |
| CookieConsent.Banner.ShowSettings | src/components/contact/CookieConsent.tsx:53-55 | This opens the settings and changes nothing else. |
| CookieConsent.Banner.CloseSettings | src/components/contact/CookieConsent.tsx:57-59 | This closes the settings and changes nothing else. |
| CookieConsent.FirstVisitAnswer | src/components/contact/CookieConsent.tsx:15-39 | A first visit shows the banner, and answering hides it. Analytics are then enabled exactly for `all` in a browser. |
| CookieConsent.NoRepromptAfterAnswer | src/components/contact/CookieConsent.tsx:15-39 | After an answer, the next page load renders nothing and restores the answer. |
| CookieConsent.RepeatedAnswerKeepsValue | src/components/contact/CookieConsent.tsx:29-33 | Answering twice keeps the stored answer, and the date is the latest. |
| Form.MatchesEmail | src/lib/form.ts:37 | The e-mail regular expression. Its partner lemma is `MatchesEmailIffShape`. |
| Form.MatchesEmailIffShape | src/lib/form.ts:37 | The e-mail pattern accepts exactly the strings that have no white space, exactly one `@`, and a `.` strictly inside the domain. |
| Form.FirstFailure | src/lib/form.ts:85-111 | The first check of a rule that fails. Its partner lemma is `FirstFailureIsEarliest`. |
| Form.FirstFailureIsEarliest | src/lib/form.ts:85-111 | The reported check is the earliest failing one: required, then minimum, maximum and pattern on the trimmed value. None is reported when all pass. |
| Form.ValidateField | src/lib/form.ts:79-114 | A field without rules has no error. Otherwise there is an error exactly when some check fails, and it is that check's message. |
| Form.NoRuleNoError | src/lib/form.ts:80-83 | The honeypot never has an error. |
| Form.RequiredMessage | src/lib/form.ts:86-93 | An unticked box, or a string that trims to nothing, gets the `required` message. |
| Form.NameValid | src/lib/form.ts:29-34 | A name passes exactly when it trims to 2..50 characters of the name class. |
| Form.EmailValid | src/lib/form.ts:35-39 | An e-mail passes exactly when it trims to at most 100 characters of the e-mail shape. |
| Form.MessageValid | src/lib/form.ts:40-44 | A message passes exactly when it trims to 10..1000 characters. |
| Form.ConsentValid | src/lib/form.ts:45-47 | Consent passes exactly when it is given. |
| Form.ShortBadNameReportsLength | src/lib/form.ts:96-110 | `" 7 "` is reported as too short, not as badly formed. |
| Form.FormErrors | src/lib/form.ts:117-132 | The error object has an entry exactly for each non-honeypot field that fails, holding that field's message. |
| Form.FormErrorsEmptyIff | src/lib/form.ts:117-132 | A form has no errors exactly when the name, e-mail, message and consent rules all hold. |
| Form.NoErrorsIffFieldsPass | src/lib/form.ts:117-132 | No errors means each of the four fields passes `validateField` on its own, and conversely. |
| Form.ValidateForm | src/lib/form.ts:117-132 | The loop over the keys builds exactly the error object. |
| Form.SubmitContactForm | src/lib/form.ts:135-191 | Invalid data or a filled honeypot fail before any request, with their messages. Otherwise exactly the `FormData` entries are posted. Success means the response was `ok`, and every failure carries a non-empty message. |
| Form.PostedDataIsValid | src/lib/form.ts:141-164 | Posted data is valid with a blank honeypot. Name, e-mail and message are sent trimmed, in that order, then consent `true`, the name in the subject, and the trimmed e-mail again as `_replyto`. |
| Form.RemoveAngles | src/lib/form.ts:195 | No `<` or `>` remains, and every other character keeps its count. |
| Form.RemoveAnglesClean | src/lib/form.ts:195 | A string without angle brackets is unchanged. |
| Form.SanitizeInput | src/lib/form.ts:194-196 | The result has no angle brackets and holds the trimmed input's other characters. |
| Form.SanitizeClean | src/lib/form.ts:194-196 | A trimmed string without angle brackets is unchanged by sanitising. |
| Form.LowerCaseClean | src/lib/form.ts:201 | Lower-casing leaves no upper-case ASCII letter and adds no angle bracket. |
| Form.FormatFormData | src/lib/form.ts:198-206 | The fields are sanitised, and the e-mail is also lower-cased. Consent is kept. A non-empty honeypot is kept as it is, and a missing or empty one becomes `""`. |
| Form.SetRateLimit | src/lib/form.ts:222-226 | In a browser the current time is stored under the rate-limit key. Elsewhere nothing changes. |
| Form.CheckRateLimit | src/lib/form.ts:212-220 | `checkRateLimit` over the stored timestamp. Its partner lemmas are `RateLimitAfterSet`, `UnreadableTimestampBlocks` and `SubmitTwice`. |
| Form.RateLimitAfterSet | src/lib/form.ts:212-220 | After a stored time `last`, a check passes exactly when more than 60000 ms have passed. |
| Form.UnreadableTimestampBlocks | src/lib/form.ts:215-219 | A stored timestamp with no digits makes the difference `NaN`, which blocks every submission. |
| Form.SubmitTwice | src/lib/form.ts:212-226 | A first submission passes. A second passes exactly when more than a minute has gone by. |
| ContactFormComponent.AddressHasNoQuery | src/components/contact/ContactForm.tsx:8 | The recipient address holds no `?`, as `MailtoRoundTrip` needs. |
| ContactFormComponent.NameError | src/components/contact/ContactForm.tsx:59-61 | The component's name check. Its partner lemma is `LibraryNameAccepted`. |
| ContactFormComponent.EmailError | src/components/contact/ContactForm.tsx:63-65 | The component's e-mail check. Its partner lemmas are `EmailErrorIff` and `AcceptedEmailIsTrimmed`. |
| ContactFormComponent.MessageError | src/components/contact/ContactForm.tsx:67-69 | The component's message check. Its partner lemma is `ComponentWithinLibrary`. |
| ContactFormComponent.EmailErrorIff | src/components/contact/ContactForm.tsx:63 | The component refuses an e-mail exactly when the untrimmed input lacks the e-mail shape. |
| ContactFormComponent.AcceptedEmailIsTrimmed | src/components/contact/ContactForm.tsx:63 | An accepted e-mail has no surrounding white space. |
| ContactFormComponent.ComponentWithinLibrary | src/components/contact/ContactForm.tsx:63-67 | An e-mail and a message the component accepts, within the library's maximum lengths, pass the library's rules. |
| ContactFormComponent.LibraryNameAccepted | src/components/contact/ContactForm.tsx:59 | Every name the library accepts, the component accepts. |
| ContactFormComponent.SubjectText | src/components/contact/ContactForm.tsx:87 | The subject before encoding. Its partner lemmas are `SubjectSubstitutes` and `SubjectDollarName`. |
| ContactFormComponent.SubjectSubstitutes | src/components/contact/ContactForm.tsx:87 | For a template that ends in `{name}`, the subject is the template's text followed by the trimmed name with its `$` patterns expanded. |
| ContactFormComponent.SubjectDollarName | src/components/contact/ContactForm.tsx:87 | A name typed as `a$$b` appears in the subject as `a$b`. |
| ContactFormComponent.BodyText | src/components/contact/ContactForm.tsx:88-92 | The body before encoding. Its partner lemma is `BodyLines`. |
| ContactFormComponent.BodyLines | src/components/contact/ContactForm.tsx:88-92 | The body reads back as lines: the labelled trimmed name, the labelled trimmed e-mail, a blank line, the message label, then the lines of the trimmed message. |
| ContactFormComponent.Mailto | src/components/contact/ContactForm.tsx:94 | The `mailto:` link. Its partner lemma is `MailtoRoundTrip`. |
| ContactFormComponent.MailtoRoundTrip | src/components/contact/ContactForm.tsx:94 | A link built from a recipient without `?` and encoded subject and body reads back to exactly those three parts. |
| ContactFormComponent.ContactForm.constructor | src/components/contact/ContactForm.tsx:24-35 | The form starts empty, unticked, without errors. |
| ContactFormComponent.ContactForm.HandleInputChange | src/components/contact/ContactForm.tsx:36-54 | This stores the one input's value or checkbox state, and clears that input's error. Other inputs and errors are unchanged. |
| ContactFormComponent.ContactForm.ValidateForm | src/components/contact/ContactForm.tsx:56-77 | The errors become exactly the failing checks, each with its translated message. The form is valid exactly when there are none. |
| ContactFormComponent.ContactForm.NoErrorsIffPasses | src/components/contact/ContactForm.tsx:56-77 | Once the errors show the failed checks, there are none exactly when all four checks pass. |
| ContactFormComponent.ContactForm.HandleSubmit | src/components/contact/ContactForm.tsx:79-98 | An invalid form opens nothing. A valid one opens the `mailto:` link with the encoded subject and body. The subject is the template with its first `{name}` replaced by the trimmed name, whose `$` patterns `replace` expands. |
| ContactFormComponent.SubmitOpensLink | src/components/contact/ContactForm.tsx:79-98 | A valid submission opens a link that reads back to the site's address and the encoded subject and body. |
| ContactFormComponent.SubmitWithoutConsent | src/components/contact/ContactForm.tsx:71-85 | Without consent no link opens, and the consent error is shown. |
| Hero.QualifyingSpec | src/components/hero/Hero.tsx:19-25 | The keys tried give at most one word each. A word is kept exactly when it is the usable translation of one of them. |
| Hero.TypingWordsOf | src/components/hero/Hero.tsx:18-27 | The word list has 1 to 5 entries, none of them empty. |
| Hero.TypingWordsChoice | src/components/hero/Hero.tsx:18-27 | Without a usable translation the list is the default word alone. Otherwise it is exactly the usable translations. |
| Hero.TypingWords | src/components/hero/Hero.tsx:18-27 | The loop over the five keys builds exactly that list. |
| Hero.Step | src/components/hero/Hero.tsx:45-74 | One run keeps the state consistent: a valid index and a text that is a prefix of the current word. Its partner lemma is `StepSpec`. |
| Hero.StepSpec | src/components/hero/Hero.tsx:52-70 | A full word turns to deleting without changing the text. An empty deleting word moves to the next index modulo the count. Otherwise one character is typed or deleted. |
| Hero.Run | src/components/hero/Hero.tsx:45-74 | Any number of steps keeps the state consistent. |
| Hero.RunAdd | src/components/hero/Hero.tsx:45-74 | Running `j + k` steps is running `j` steps, then `k`. |
| Hero.TypingPhase | src/components/hero/Hero.tsx:65-70 | Typing grows the prefix one character per step. |
| Hero.DeletingPhase | src/components/hero/Hero.tsx:65-67 | Deleting shrinks the prefix one character per step. |
| Hero.TypeAndPause | src/components/hero/Hero.tsx:52-70 | From an empty text, typing the word and the pause take one run per character plus one, and end on the full word, deleting. |
| Hero.DeleteAndSwitch | src/components/hero/Hero.tsx:58-67 | From a full word that is deleting, deleting it and the switch take one run per character plus one, and end on the next word, empty and typing. |
| Hero.WordCycle | src/components/hero/Hero.tsx:45-74 | From an empty text, `2 * length + 2` steps type, pause, delete and land on the next word, empty and typing. |
| Hero.Typewriter.constructor | src/components/hero/Hero.tsx:12-27 | The headline starts at the first word with nothing typed. |
| Hero.Typewriter.ChangeLocale | src/components/hero/Hero.tsx:38-42 | A locale change takes the new words and resets the index, text and phase. |
| Hero.Typewriter.UpdateWords | src/components/hero/Hero.tsx:18-27 | As written: new translations without a locale change recompute the words and keep the index, text and phase. |
| Hero.Typewriter.UpdateWordsWithReset | src/components/hero/Hero.tsx:18-42 | Corrected: new words reset the effect, unchanged words keep it, and the state always fits the list. |
| Hero.WordsShrinkPastIndex | src/components/hero/Hero.tsx:18-48 | With five words, one full cycle of the first reaches index 1. Empty translations then leave one word, so index 1 is past the list. |
| Hero.LoadedWordsMidWord | src/components/hero/Hero.tsx:18-48 | On a first load, three runs over the default word show `now`. Arriving words `abc` then leave a text that is not a prefix of the current word. |
| Hero.FirstCycleOfThree | src/components/hero/Hero.tsx:45-74 | With two words or more, a full cycle of a three-letter first word takes 8 runs and reaches the second word. |
| Hero.EchoedWords | src/components/hero/Hero.tsx:18-27 | With every key echoed back, the list is the default word alone. |
| Hero.DefaultWordTyped | src/components/hero/Hero.tsx:65-70 | Three runs over the default word show `now`. |
| Hero.AbcWords | src/components/hero/Hero.tsx:18-27 | Five keys translated to `abc` give five words `abc`. |
| Hero.EchoedKeysUnusable | src/components/hero/Hero.tsx:22 | A key echoed back by `t` is never kept as a word. |
| Hero.Typewriter.Tick | src/components/hero/Hero.tsx:45-74 | One run of the effect performs exactly one `Step` and keeps the state consistent. |
| Testimonials.NextIndex | src/components/testimonials/Testimonials.tsx:52 | Forward wraps from the last testimonial to the first and stays in range. |
| Testimonials.PreviousIndex | src/components/testimonials/Testimonials.tsx:59 | Back wraps from the first testimonial to the last and stays in range. |
| Testimonials.PreviousAfterNext | src/components/testimonials/Testimonials.tsx:58-67 | Previous undoes next. |
| Testimonials.NextAfterPrevious | src/components/testimonials/Testimonials.tsx:58-67 | Next undoes previous. |
| Testimonials.Advance | src/components/testimonials/Testimonials.tsx:51-53 | Repeated autoplay ticks stay in range. |
| Testimonials.AdvanceWraps | src/components/testimonials/Testimonials.tsx:51-53 | Up to a full round, `k` ticks move `k` places, wrapping once. |
| Testimonials.FullRound | src/components/testimonials/Testimonials.tsx:51-53 | Autoplay shows every testimonial within one round and is back at the start after a round. |
| Testimonials.ExactlyOneActiveDot | src/components/testimonials/Testimonials.tsx:190 | Exactly one dot is highlighted: the current one. |
| Testimonials.Carousel.constructor | src/components/testimonials/Testimonials.tsx:44-45 | The carousel starts at the first testimonial with autoplay on. |
| Testimonials.Carousel.Tick | src/components/testimonials/Testimonials.tsx:48-56 | The interval moves forward only while autoplay is on. |
| Testimonials.Carousel.Previous | src/components/testimonials/Testimonials.tsx:58-62 | This moves one back and pauses autoplay. |
| Testimonials.Carousel.Next | src/components/testimonials/Testimonials.tsx:64-68 | This moves one forward and pauses autoplay. |
| Testimonials.Carousel.DotClick | src/components/testimonials/Testimonials.tsx:70-74 | This jumps to the dot, which becomes the active one, and pauses autoplay. |
| Testimonials.Carousel.Resume | src/components/testimonials/Testimonials.tsx:61 | The timeout after a navigation turns autoplay back on. |
| Testimonials.Carousel.MouseEnter | src/components/testimonials/Testimonials.tsx:80 | Hovering stops autoplay. |
| Testimonials.Carousel.MouseLeave | src/components/testimonials/Testimonials.tsx:81 | Leaving starts autoplay. |
| Testimonials.NextThenPrevious | src/components/testimonials/Testimonials.tsx:58-68 | Next followed by previous shows the same testimonial again, with autoplay paused. |
| Faq.Accordion.constructor | src/components/faq/FAQ.tsx:67 | Item 0 starts open and every other item closed. |
| Faq.Accordion.Toggle | src/components/faq/FAQ.tsx:96-98 | The clicked item is open afterwards exactly when it was closed before. Every other item ends up closed. |
| Faq.AtMostOneOpen | src/components/faq/FAQ.tsx:130 | Two open items are the same item. |
| Faq.ToggleTwice | src/components/faq/FAQ.tsx:96-98 | Two clicks on an item restore its state and leave the others closed. |
| LanguageSwitcher.NextLocale | src/components/ui/LanguageSwitcher.tsx:59 | The toggle always picks a supported locale, different from a supported current one. |
| LanguageSwitcher.NextLocaleInvolution | src/components/ui/LanguageSwitcher.tsx:58-61 | Toggling twice from `pl` or `en` gives the original. |
| LanguageSwitcher.Buttons | src/components/ui/LanguageSwitcher.tsx:28-49 | There is one button per locale, in order, and each is disabled exactly while loading. |
| LanguageSwitcher.ExactlyOnePressed | src/components/ui/LanguageSwitcher.tsx:37-44 | For a supported locale exactly one button is pressed: the current locale's. |
| LanguageSwitcher.HandleLocaleChange | src/components/ui/LanguageSwitcher.tsx:20-24 | The current locale is left alone. Another supported one is set and saved. |
| LanguageSwitcher.ClickLocaleButton | src/components/ui/LanguageSwitcher.tsx:31-32 | A disabled button does nothing. An enabled one makes its locale current. |
| LanguageSwitcher.ToggleLocale | src/components/ui/LanguageSwitcher.tsx:58-61 | The compact button sets and saves the other locale. |
| LanguageSwitcher.ClickToggleButton | src/components/ui/LanguageSwitcher.tsx:65-66 | The compact button does nothing while loading, and toggles otherwise. |
| LanguageSwitcher.ToggleTwice | src/components/ui/LanguageSwitcher.tsx:58-61 | Two toggles from a supported locale come back to it, and that locale is the one saved. |
| Seo.GeneratePageMetadata | src/lib/seo.ts:41-100 | A given title becomes `<title> \| TomSoft`, and a missing or empty one becomes the site title. Description and image fall back to the site's. OpenGraph and Twitter repeat the title, description and image, and the image's alt text is the title. Every robots flag is `!noIndex`. |
| Seo.IndexableUnlessNoIndex | src/lib/seo.ts:90-95 | Without `noIndex`, or with `false`, the page is indexable. With `true` it is not followed. |
| Seo.EmptyTitleIsNoTitle | src/lib/seo.ts:47 | An empty title gives the same metadata as no title. |
| Seo.TitleNamesSite | src/lib/seo.ts:47 | Every page title is the site title or ends with ` \| TomSoft`. |
| Seo.BreadcrumbItems | src/lib/seo.ts:306-315 | There is one item per link, in order, at position `index + 1`, carrying the link's name and the site URL followed by its path. |
| Seo.BreadcrumbPositions | src/lib/seo.ts:309-311 | The positions are exactly `1..n`, increasing. |
| Seo.BreadcrumbRoundTrip | src/lib/seo.ts:312-313 | Each item's name and path give back the original link. |
| Seo.BreadcrumbAppend | src/lib/seo.ts:309-313 | Appending a link appends one item numbered after the others. |

## Findings

| source | as written | input that shows it | evidently intended | confidence | as-written member | corrected member |
|---|---|---|---|---|---|---|
| src/components/hero/Hero.tsx:18-48 | The words are recomputed whenever `t` changes, but the index, text and phase reset only on a change of locale. | Five translated words `abc`. After a change of locale they keep cycling while the new bundle loads, and one full cycle of the first word (8 runs) reaches index 1. The new locale's bundle then fails to load, so `t` echoes every key and the list becomes the default word alone. `typingWords[1]` is `undefined`, and the next timer calls `substring` on it. On a first load, `now` typed from the default word is not a prefix of an arriving `abc`. | Reset the effect whenever the word list changes. | medium, not executed | Hero.Typewriter.UpdateWords, Hero.WordsShrinkPastIndex, Hero.LoadedWordsMidWord | Hero.Typewriter.UpdateWordsWithReset |

## Left out

- Network and timing.
  - `fetch` and the form POST become input outcomes.
  - Concurrent or interleaved loads are not modelled, and neither is the missing stale-response guard.
  - Timers are not modelled: the 2 s banner delay, the 6 s and 10 s carousel timers, and the typing speeds and pauses. The transitions they trigger are explicit calls (`Mount`, `Tick`, `Resume`).
- DOM and browser APIs are not modelled: `scrollIntoView`, `window.location`, `IntersectionObserver`, `performance`, and the error listeners.
  - The scroll tracker's `intersectionRatio > 0.5` is a boolean input.
  - Reported sections are recorded as ids, not as Plausible events.
  - `document.documentElement.lang` is a field.
- JavaScript objects.
  - `key in obj` also sees inherited properties such as `toString`, which the model does not.
  - The model's string lengths count Unicode scalars, not UTF-16 code units.
  - `toLowerCase` is modelled for ASCII letters only.
- BrowserStorage.Storage: storage access is assumed to succeed. A `getItem` or `setItem` that throws is not modelled: a `SecurityError` on disabled storage, or a `QuotaExceededError` on a full quota. The source guards none of its calls (i18n.tsx:90 and 107, CookieConsent.tsx:17 and 31-32, form.ts:215 and 224, analytics.ts:153). The model therefore misses the partial updates such a throw leaves:
  - In `setLocale`, the locale state is set before `setItem`. A throw leaves the locale changed but unsaved, with `document.documentElement.lang` not updated. `I18n.Provider.SetLocale` ensures all three.
  - In `handleConsent`, storage is written before the answer is recorded and the banner hidden. A throw leaves the banner visible, with nothing recorded or reported. `CookieConsent.Banner.HandleConsent` always hides it.
  - `I18n.ChoiceSurvivesNewSession`, `CookieConsent.FirstVisitAnswer`, `CookieConsent.NoRepromptAfterAnswer` and `CookieConsent.RepeatedAnswerKeepsValue` hold only for storage that does not fail.
- BrowserStorage.Storage.Get: never throws, though `getItem` throws when storage is disabled.
- BrowserStorage.Storage.SetItem: never throws, though `setItem` throws when storage is disabled or the quota is full.
- I18n.Interpolate: `replace` patterns with `$` in a value, and regular-expression metacharacters in a parameter name, are not modelled. Number parameters are passed as strings.
- I18n.InterpolateKeepsUnmatched: proved only for brace-free parameter names. A name containing braces could create new placeholders.
- I18n.Provider: the locale-change effect that calls `loadTranslations` is not wired to `SetLocale`; the two are separate calls. The React context's missing-provider error is not modelled.
- ContactFormComponent: `encodeURIComponent` is an arbitrary function parameter. The link round trip assumes only that its results contain no `?` or `&`. Percent-encoding itself is not modelled.
- ContactFormComponent and Hero take the translation function as a parameter, not a provider.
- ContactFormComponent.ContactForm.HandleInputChange: a cleared error (`undefined`) is modelled as an absent key.
- Hero.Typewriter.Tick: requires the text to be a prefix of the current word at a valid index. A state that does not fit the list after `UpdateWords` is shown under Findings. What `substring` does from there, clamping or throwing on `undefined`, is not modelled.
- Form: `trackFormEvent` and the `FORMSPREE_ENDPOINT` configuration are not modelled. The network error and server error texts are constants.
- Form.CheckRateLimit: `Date.now()` is a parameter.
- CookieConsent: the ISO date string of `new Date().toISOString()` is a parameter.
- Seo: the constant JSON-LD objects and the static metadata fields (keywords, authors, formatDetection, alternates, the googleBot preview limits) are constants in the source and are not modelled.
- Floating-point UI is not modelled: the statistics counters and the floating contact button's scroll thresholds.
- Page wiring in `src/app/page.tsx` and the layout components are not modelled.
