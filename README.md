# Contact form of the portfolio site, in Dafny

This project models the contact section of the portfolio site
(`app/Components/Contact/Contact.tsx`): the form record and its initial value,
the `handleChange` field update, the `validate` rules and the `handleSubmit`
handler, which validates, posts the form to the FormSubmit relay and, when that
fails, builds a `mailto:` link to open instead.

The project is split into six modules:

- `Wrappers`: the `Option` type.
- `JsString`: the JavaScript string operations the form relies on. It covers
  the whitespace set shared by `String.prototype.trim` and the regular-expression
  class `\s` (ECMAScript WhiteSpace and LineTerminator), `trim` and `.length`
  counted in UTF-16 code units. It also holds `IndexOf`, a helper for the
  e-mail check and the link parser.
- `EmailPattern`: the pattern `^[^\s@]+@[^\s@]+\.[^\s@]+$`. `Matches` reads it
  as the language it denotes. `IsEmail` is an executable check, and a lemma
  proves the two agree.
- `UriComponent`: `encodeURIComponent`, which writes the UTF-8 bytes of every
  character outside the unreserved set as upper-case percent triplets
  (section 2.1 of RFC 3986). `Decode` is the matching `decodeURIComponent`,
  and the round trip between the two is proved.
- `ContactForm`: the pure part. It holds the form record, the single-field
  update, `validate` as the ordered chain of the five checks of its lines 43–48,
  the relay request, and the fallback link with its plain-text body. It also
  defines what a mail client reads back from that link
  (`mailto:` URIs, section 2 of RFC 6068).
- `ContactController`: the component's state as a class `ContactSection`
  with the fields `form`, `errors`, `loading` and `success`. `handleSubmit`
  suspends twice, at the relay call and at reading its JSON answer, and
  changes no state between the two. `BeginSubmit` is the part before the
  first and `FinishSubmit` the part after the answer has been read. `HandleSubmit`
  runs the two back to back. The relay's answer is an input:
  `Success`, `Rejected` (a response whose `success` is falsy) or
  `TransportError` (`fetch` or the JSON read threw).

Two behaviours of the code are easy to misread; the model follows the code:

- The handler has no guard on `loading`: a submit while a request is in
  flight validates and sends again. Only the disabled button prevents it.
- The length check on the message runs after the "required" check and
  overwrites it. The empty message therefore reports "Message must be at least
  10 characters". "Message is required" appears only for an all-whitespace
  message of ten or more code units.

## Model

| member | source | states |
|---|---|---|
| JsString.TrimSpec | app/Components/Contact/Contact.tsx:43-47 | `trim()` removes only whitespace, only at the two ends, and keeps a contiguous middle slice that neither starts nor ends with whitespace |
| JsString.BlankIffAllWhitespace | app/Components/Contact/Contact.tsx:43-47 | `!s.trim()` holds exactly when every character of `s` is whitespace |
| JsString.TrimIdempotent | app/Components/Contact/Contact.tsx:43-47 | trimming an already trimmed string changes nothing |
| JsString.Utf16Length | app/Components/Contact/Contact.tsx:48 | `.length` lies between the number of characters and twice that, and is zero only for the empty string |
| JsString.Utf16LengthConcat | app/Components/Contact/Contact.tsx:48 | `.length` of a concatenation is the sum of the lengths |
| JsString.Utf16LengthOfBmp | app/Components/Contact/Contact.tsx:48 | for text inside the Basic Multilingual Plane `.length` is the number of characters |
| EmailPattern.IsEmailIffMatches | app/Components/Contact/Contact.tsx:45 | the executable check accepts exactly the strings the anchored pattern matches: one `@` with a non-empty local part, no whitespace, and a domain with an interior `.` |
| UriComponent.EncodeIsEncoded | app/Components/Contact/Contact.tsx:97-99 | an encoded component holds only unreserved characters and `%` |
| UriComponent.EncodeUnreserved | app/Components/Contact/Contact.tsx:97-99 | text of unreserved characters passes through the encoding unchanged |
| UriComponent.DecodeEncodeChar | app/Components/Contact/Contact.tsx:97-99 | decoding the encoding of one character, whatever follows it, yields that character and consumes exactly its encoding |
| UriComponent.DecodeEncode | app/Components/Contact/Contact.tsx:97-99 | `decodeURIComponent(encodeURIComponent(s))` is `s` for every string |
| ContactForm.Form.With | app/Components/Contact/Contact.tsx:38 | the named field takes the new value and every other field keeps its old one |
| ContactForm.WithCurrentValue | app/Components/Contact/Contact.tsx:38 | writing a field the value it already holds leaves the form unchanged |
| ContactForm.WithTwice | app/Components/Contact/Contact.tsx:38 | of two changes to the same field, the later one wins |
| ContactForm.WithCommutes | app/Components/Contact/Contact.tsx:38 | changes to two different fields commute |
| ContactForm.Put | app/Components/Contact/Contact.tsx:43-48 | one line of the validator sets its field's entry when it reports an error and touches no other entry |
| ContactForm.Validate | app/Components/Contact/Contact.tsx:41-50 | only name, e-mail, phone and message can ever carry an error |
| ContactForm.NameError | app/Components/Contact/Contact.tsx:43 | the name has an error, "Name is required", exactly when it is all whitespace |
| ContactForm.EmailError | app/Components/Contact/Contact.tsx:44-45 | "Email is required" when the e-mail is all whitespace, else "Invalid email format" when the untrimmed text does not match the pattern, else no error |
| ContactForm.PhoneError | app/Components/Contact/Contact.tsx:46 | the phone has an error, "Phone is required", exactly when it is all whitespace |
| ContactForm.MessageError | app/Components/Contact/Contact.tsx:47-48 | a message under ten code units, the empty one included, reports "too short"; "required" survives only for an all-whitespace message of ten or more; otherwise no error |
| ContactForm.OptionalFieldsNeverFail | app/Components/Contact/Contact.tsx:42-48 | subject and service never get an error |
| ContactForm.ValidateAcceptsIff | app/Components/Contact/Contact.tsx:41-49 | the error map is empty exactly when name, e-mail, phone and message are not all whitespace, the raw e-mail matches the pattern and the message has at least ten code units |
| ContactForm.InitialFormErrors | app/Components/Contact/Contact.tsx:19-26 | the empty initial form reports name, e-mail and phone as required and the message as too short, and nothing else |
| ContactForm.OrDefault | app/Components/Contact/Contact.tsx:75 | the or-default of a string keeps a non-empty string as it is, gives the default for the empty string, and is non-empty whenever the default is |
| ContactForm.RelayPayloadCarriesForm | app/Components/Contact/Contact.tsx:71-80 | the payload carries every field as typed except the subject, which falls back to "New Contact Form Submission" when empty and so is never empty; the sender's name can be read back from `_subject` |
| ContactForm.MailtoSubject | app/Components/Contact/Contact.tsx:97 | the fallback subject is never empty |
| ContactForm.MailtoSubjectChoice | app/Components/Contact/Contact.tsx:97 | the fallback subject is the typed subject, or "Contact from Portfolio" when that is empty |
| ContactForm.MailtoBodyTemplate | app/Components/Contact/Contact.tsx:98 | for every form the body is `Name: …`, `Email: …`, `Phone: …` and `Service: …` on their own lines, a blank line, `Message:` and then the message, exactly as the handler's template writes it |
| ContactForm.ParseBuiltLink | app/Components/Contact/Contact.tsx:97-99 | a link built from any subject and body parses back, by splitting at the first `&` and decoding, into that subject and body |
| ContactForm.MailtoRoundTrip | app/Components/Contact/Contact.tsx:97-99 | a mail client opening the fallback link receives exactly the subject (typed, or "Contact from Portfolio") and the plain-text body the form built |
| ContactForm.LinesOfLinesThen | app/Components/Contact/Contact.tsx:98 | line-free lines, each followed by a line break and then a final text, split back into those lines followed by the final text's lines |
| ContactForm.MailtoBodyLines | app/Components/Contact/Contact.tsx:98 | when name, e-mail, phone and service hold no line break, the body's lines are "Name: …", "Email: …", "Phone: …", "Service: …", a blank line, "Message:" and then the message's own lines, in that order |
| ContactController.ContactSection.constructor | app/Components/Contact/Contact.tsx:29-32 | the section starts with the empty form, no errors, not loading and no success |
| ContactController.ContactSection.HandleChange | app/Components/Contact/Contact.tsx:34-39 | the named field now holds the value, every other field keeps its own, and errors, loading and success are unchanged |
| ContactController.ContactSection.BeginSubmit | app/Components/Contact/Contact.tsx:52-62 | the errors become those of the current form; a request is made exactly when there are none, and it is the relay request for that form with loading set; with errors, form, loading and success are unchanged |
| ContactController.ContactSection.FinishSubmit | app/Components/Contact/Contact.tsx:83-104 | on success the form is cleared and success set; on a rejection or transport error the form and success are kept and the fallback link for the sent form is produced; loading ends false either way and errors are unchanged |
| ContactController.ContactSection.HandleSubmit | app/Components/Contact/Contact.tsx:52-105 | the whole handler: an invalid form only replaces the errors; a valid one is sent as typed, then either cleared with success set or kept with its fallback link produced, and loading ends false |
| ContactController.SubmitValidForm | app/Components/Contact/Contact.tsx:52-105 | a fresh section filled in with a valid form and submitted sends exactly that form, and produces the fallback link for it exactly when the relay does not report success; afterwards the section has no errors and is not loading, and it is back to the empty form with success set exactly when the relay reported success, otherwise it still holds the form |

## Left out

- Network and browser effects: `fetch`, reading the response's JSON, `window.open` and `console.error`. The relay's answer is an input (`RelayOutcome`); the link that would be opened is returned instead.
- JSON serialisation of the payload: the body is the record `Payload`, and the headers are their two strings.
- The `setTimeout` that clears `success` five seconds later: a timer-driven display effect.
- Interleaving with renders: `HandleSubmit` assumes no other event arrives while the relay call is pending. `BeginSubmit` and `FinishSubmit` model the two halves for callers that want other events in between. `FinishSubmit` takes the form captured when the submit began, as the handler's closure does.
- Double-submit prevention: it is only `disabled={loading}` on the button (app/Components/Contact/Contact.tsx:365), which is markup and not part of the handler.
- `service` is optional in `FormType`, but the initial form and every input set it to a string, so the model holds it as a string.
- Strings are sequences of Unicode scalar values. A lone UTF-16 surrogate, and the URIError `encodeURIComponent` raises for it, cannot be represented.
- The presentational components (About, Home, Footer, Navbar, Skill, Project, the page) and the static project data: markup and animation with no behaviour to state.
