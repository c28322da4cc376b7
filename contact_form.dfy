/** The pure part of the contact form: the form record, the single-field
    update behind `handleChange`, the `validate` rules, the request sent to the
    form relay and the `mailto:` fallback link. */
module ContactForm {
  import opened Wrappers
  import opened JsString
  import opened EmailPattern
  import opened UriComponent
  import opened SeqFacts

  /** The inputs of the form, by their `name` attribute. */
  datatype Field = Name | Email | Phone | Subject | Message | Service

  /** `FormType`: one string per input. */
  datatype Form = Form(name: string, email: string, phone: string,
                       subject: string, message: string, service: string)
  {
    function Get(f: Field): string
    {
      match f
      case Name => name
      case Email => email
      case Phone => phone
      case Subject => subject
      case Message => message
      case Service => service
    }

    /** `{ ...form, [f]: v }`: the named field takes the new value and every
        other field keeps its own. */
    function With(f: Field, v: string): (r: Form)
      ensures r.Get(f) == v
      ensures forall g :: g != f ==> r.Get(g) == Get(g)
    {
      match f
      case Name => this.(name := v)
      case Email => this.(email := v)
      case Phone => this.(phone := v)
      case Subject => this.(subject := v)
      case Message => this.(message := v)
      case Service => this.(service := v)
    }
  }

  /** `initialForm`: every field empty. */
  const InitialForm: Form := Form("", "", "", "", "", "")

  /** Two forms that agree on every field are the same form. */
  lemma FormExtensional(a: Form, b: Form)
    requires forall g :: a.Get(g) == b.Get(g)
    ensures a == b
  {
    assert a.Get(Name) == b.Get(Name) && a.Get(Email) == b.Get(Email);
    assert a.Get(Phone) == b.Get(Phone) && a.Get(Subject) == b.Get(Subject);
    assert a.Get(Message) == b.Get(Message) && a.Get(Service) == b.Get(Service);
  }

  /** Writing a field the value it already has leaves the form as it was. */
  lemma WithCurrentValue(f: Form, g: Field)
    ensures f.With(g, f.Get(g)) == f
  {
    FormExtensional(f.With(g, f.Get(g)), f);
  }

  /** Of two changes to the same field, the later one wins. */
  lemma WithTwice(f: Form, g: Field, a: string, b: string)
    ensures f.With(g, a).With(g, b) == f.With(g, b)
  {
    FormExtensional(f.With(g, a).With(g, b), f.With(g, b));
  }

  /** Changes to two different fields commute. */
  lemma WithCommutes(f: Form, g: Field, h: Field, a: string, b: string)
    requires g != h
    ensures f.With(g, a).With(h, b) == f.With(h, b).With(g, a)
  {
    FormExtensional(f.With(g, a).With(h, b), f.With(h, b).With(g, a));
  }

  // ---------------------------------------------------------------------------
  // Validation

  /** `Partial<FormType>` used as an error record: field to message. */
  type Errors = map<Field, string>

  const NameRequired: string := "Name is required"
  const EmailRequired: string := "Email is required"
  const InvalidEmail: string := "Invalid email format"
  const PhoneRequired: string := "Phone is required"
  const MessageRequired: string := "Message is required"
  const MessageTooShort: string := "Message must be at least 10 characters"

  /** The minimum message length, in UTF-16 code units. */
  const MinMessageLength: nat := 10

  /** The error for field `f`, if there is one. */
  function ErrorFor(er: Errors, f: Field): Option<string>
  {
    if f in er then Some(er[f]) else None
  }

  /** One line of `validate`: when the line reports an error the entry for
      `f` becomes it, and every other entry is left alone. */
  function Put(er: Errors, f: Field, e: Option<string>): (r: Errors)
    ensures ErrorFor(r, f) == if e.Some? then e else ErrorFor(er, f)
    ensures forall g :: g != f ==> ErrorFor(r, g) == ErrorFor(er, g)
    ensures r.Keys <= er.Keys + {f}
  {
    if e.Some? then er[f := e.value] else er
  }

  /** `if (!s.trim()) er.f = msg`. */
  function RequiredCheck(s: string, msg: string): Option<string>
  {
    if IsBlank(s) then Some(msg) else None
  }

  /** The e-mail line of `validate`: "required" when blank, else "invalid" when
      the pattern fails on the untrimmed text. */
  function EmailCheck(s: string): Option<string>
  {
    if IsBlank(s) then Some(EmailRequired)
    else if !IsEmail(s) then Some(InvalidEmail)
    else None
  }

  /** The length line of `validate`, on the untrimmed message. */
  function LengthCheck(s: string): Option<string>
  {
    if Utf16Length(s) < MinMessageLength then Some(MessageTooShort) else None
  }

  /** `validate`: the checks run in source order, each writing its field's
      entry, so the length check on the message overwrites the emptiness check
      on it. Only the four required fields can ever carry an error. */
  function Validate(v: Form): (er: Errors)
    ensures er.Keys <= {Name, Email, Phone, Message}
  {
    var er0: Errors := map[];
    var er1 := Put(er0, Name, RequiredCheck(v.name, NameRequired));
    var er2 := Put(er1, Email, EmailCheck(v.email));
    var er3 := Put(er2, Phone, RequiredCheck(v.phone, PhoneRequired));
    var er4 := Put(er3, Message, RequiredCheck(v.message, MessageRequired));
    Put(er4, Message, LengthCheck(v.message))
  }

  /** A name gets an error exactly when it is all whitespace. */
  lemma NameError(v: Form)
    ensures ErrorFor(Validate(v), Name) == if AllWhitespace(v.name) then Some(NameRequired) else None
  {
    BlankIffAllWhitespace(v.name);
  }

  /** An all-whitespace e-mail is "required"; otherwise one the pattern does not
      match (tested untrimmed) is "invalid"; otherwise there is no error. */
  lemma EmailError(v: Form)
    ensures ErrorFor(Validate(v), Email) ==
      if AllWhitespace(v.email) then Some(EmailRequired)
      else if !Matches(v.email) then Some(InvalidEmail)
      else None
  {
    BlankIffAllWhitespace(v.email);
    IsEmailIffMatches(v.email);
  }

  /** A phone number gets an error exactly when it is all whitespace. */
  lemma PhoneError(v: Form)
    ensures ErrorFor(Validate(v), Phone) == if AllWhitespace(v.phone) then Some(PhoneRequired) else None
  {
    BlankIffAllWhitespace(v.phone);
  }

  /** Any message shorter than ten code units, the empty one included, is "too
      short"; "required" survives only for an all-whitespace message of ten or
      more code units. */
  lemma MessageError(v: Form)
    ensures ErrorFor(Validate(v), Message) ==
      if Utf16Length(v.message) < MinMessageLength then Some(MessageTooShort)
      else if AllWhitespace(v.message) then Some(MessageRequired)
      else None
  {
    BlankIffAllWhitespace(v.message);
  }

  /** Subject and service are never checked. */
  lemma OptionalFieldsNeverFail(v: Form)
    ensures ErrorFor(Validate(v), Subject) == None && ErrorFor(Validate(v), Service) == None
  {
  }

  /** The form passes exactly when name, e-mail, phone and message are not
      all whitespace, the raw e-mail matches the pattern and the message is at
      least ten code units long. */
  lemma ValidateAcceptsIff(v: Form)
    ensures Validate(v) == map[] <==>
      && !AllWhitespace(v.name) && !AllWhitespace(v.email)
      && !AllWhitespace(v.phone) && !AllWhitespace(v.message)
      && Matches(v.email)
      && Utf16Length(v.message) >= MinMessageLength
  {
    var er := Validate(v);
    NameError(v);
    EmailError(v);
    PhoneError(v);
    MessageError(v);
    if er != map[] {
      var f :| f in er;
      assert ErrorFor(er, f).Some?;
    }
  }

  /** The initial, empty form fails every required field, and the message with
      "too short". */
  lemma InitialFormErrors()
    ensures Validate(InitialForm) == map[Name := NameRequired, Email := EmailRequired,
                                         Phone := PhoneRequired, Message := MessageTooShort]
  {
    BlankIffAllWhitespace("");
  }

  // ---------------------------------------------------------------------------
  // The request to the form relay

  const RelayEndpoint: string := "https://formsubmit.co/ajax/bilalusman1291@gmail.com"
  const JsonMediaType: string := "application/json"
  const DefaultRelaySubject: string := "New Contact Form Submission"
  const RelaySubjectPrefix: string := "New Message from "
  const RelaySubjectSuffix: string := " - Portfolio Contact"
  const Autoresponse: string :=
    "Thank you for contacting Bilal! I'll get back to you within 24 hours.\n\nBest regards,\nMuhammad Bilal"

  /** The JSON body posted to the relay; `mailSubject` is `_subject` and
      `autoresponse` is `_autoresponse`. */
  datatype Payload = Payload(name: string, email: string, phone: string, subject: string,
                             message: string, service: string,
                             mailSubject: string, autoresponse: string)

  /** A POST to `url` with `Content-Type` and `Accept` headers and a JSON body. */
  datatype Request = Request(url: string, contentType: string, accept: string, body: Payload)

  /** JavaScript's `s || d` on strings: the empty string is falsy. */
  function OrDefault(s: string, d: string): (r: string)
    ensures r != [] <== d != []
    ensures s != [] ==> r == s
    ensures s == [] ==> r == d
  {
    if s == [] then d else s
  }

  function RelaySubjectLine(name: string): string
  {
    RelaySubjectPrefix + name + RelaySubjectSuffix
  }

  /** The sender's name read back from a relay subject line. */
  function SenderOf(line: string): Option<string>
  {
    var p, q := |RelaySubjectPrefix|, |RelaySubjectSuffix|;
    if |line| >= p + q && line[..p] == RelaySubjectPrefix && line[|line| - q..] == RelaySubjectSuffix
    then Some(line[p..|line| - q])
    else None
  }

  /** The request `handleSubmit` sends for the form `f`. */
  function RelayRequest(f: Form): Request
  {
    Request(RelayEndpoint, JsonMediaType, JsonMediaType,
      Payload(f.name, f.email, f.phone, OrDefault(f.subject, DefaultRelaySubject),
              f.message, f.service, RelaySubjectLine(f.name), Autoresponse))
  }

  /** The form a payload carries, with the subject it was sent under. */
  function FormOf(p: Payload): Form
  {
    Form(p.name, p.email, p.phone, p.subject, p.message, p.service)
  }

  /** The payload carries the form: every field but the subject as typed, the
      subject as typed or else the fixed default (so never empty), and a
      `_subject` line from which the sender's name can be read back. */
  lemma RelayPayloadCarriesForm(f: Form)
    ensures var p := RelayRequest(f).body;
      && (forall g :: g != Subject ==> FormOf(p).Get(g) == f.Get(g))
      && (f.subject != "" ==> FormOf(p) == f)
      && (f.subject == "" ==> p.subject == DefaultRelaySubject)
      && p.subject != ""
      && SenderOf(p.mailSubject) == Some(f.name)
  {
    var p := RelayRequest(f).body;
    if f.subject != "" {
      FormExtensional(FormOf(p), f);
    }
    var line := p.mailSubject;
    assert line[..|RelaySubjectPrefix|] == RelaySubjectPrefix;
    assert line[|line| - |RelaySubjectSuffix|..] == RelaySubjectSuffix;
    assert line[|RelaySubjectPrefix|..|line| - |RelaySubjectSuffix|] == f.name;
  }

  // ---------------------------------------------------------------------------
  // The mailto: fallback

  const MailtoTarget: string := "mailto:bilalusman1291@gmail.com"
  const SubjectQuery: string := "?subject="
  const BodyQuery: string := "&body="
  const DefaultMailSubject: string := "Contact from Portfolio"

  /** The subject of the fallback message. */
  function MailtoSubject(f: Form): (r: string)
    ensures r != []
  {
    OrDefault(f.subject, DefaultMailSubject)
  }

  /** The fallback subject is the typed subject, or the fixed default when
      that is empty. */
  lemma MailtoSubjectChoice(f: Form)
    ensures f.subject != [] ==> MailtoSubject(f) == f.subject
    ensures f.subject == [] ==> MailtoSubject(f) == DefaultMailSubject
  {
  }

  /** The lines `ls`, each followed by a line break, and then `rest`. */
  function LinesThen(ls: seq<string>, rest: string): string
  {
    if ls == [] then rest else ls[0] + "\n" + LinesThen(ls[1..], rest)
  }

  /** The lines of the fallback body that precede the message. */
  function MailtoHeader(f: Form): seq<string>
  {
    ["Name: " + f.name, "Email: " + f.email, "Phone: " + f.phone,
     "Service: " + f.service, "", "Message:"]
  }

  /** The plain-text body of the fallback message, before encoding:
      `Name: …\nEmail: …\nPhone: …\nService: …\n\nMessage:\n…`, the header
      lines each ended by a line break, then the message as typed. */
  function MailtoBody(f: Form): string
  {
    LinesThen(MailtoHeader(f), f.message)
  }

  /** The body is the template of the handler, field by field, for every form. */
  lemma MailtoBodyTemplate(f: Form)
    ensures MailtoBody(f) == "Name: " + f.name + "\nEmail: " + f.email + "\nPhone: " + f.phone
                           + "\nService: " + f.service + "\n\nMessage:\n" + f.message
  {
    var h, m := MailtoHeader(f), f.message;
    var t4 := "" + ("\n" + ("Message:" + ("\n" + m)));
    assert LinesThen(h[4..], m) == t4 by {
      LinesThenStep("", "", h[4..], m);
      LinesThenStep("Message:", "", h[5..], m);
      assert h[5..][1..] == [];
    }
    var t3 := "Service: " + (f.service + ("\n" + t4));
    assert LinesThen(h[3..], m) == t3 by {
      LinesThenStep("Service: ", f.service, h[3..], m);
      assert h[3..][1..] == h[4..];
    }
    var t2 := "Phone: " + (f.phone + ("\n" + t3));
    assert LinesThen(h[2..], m) == t2 by {
      LinesThenStep("Phone: ", f.phone, h[2..], m);
      assert h[2..][1..] == h[3..];
    }
    var t1 := "Email: " + (f.email + ("\n" + t2));
    assert LinesThen(h[1..], m) == t1 by {
      LinesThenStep("Email: ", f.email, h[1..], m);
      assert h[1..][1..] == h[2..];
    }
    LinesThenStep("Name: ", f.name, h, m);
    TemplateAssoc(f.name, f.email, f.phone, f.service, m);
  }

  /** One line `tag + value`, its line break, then the rest. */
  lemma LinesThenStep(tag: string, value: string, ls: seq<string>, m: string)
    requires ls != [] && ls[0] == tag + value
    ensures LinesThen(ls, m) == tag + (value + ("\n" + LinesThen(ls[1..], m)))
  {
  }

  /** The handler's template, regrouped one piece at a time. */
  lemma TemplateAssoc(name: string, email: string, phone: string, service: string, m: string)
    ensures "Name: " + name + "\nEmail: " + email + "\nPhone: " + phone
            + "\nService: " + service + "\n\nMessage:\n" + m
         == "Name: " + (name + ("\n" + ("Email: " + (email + ("\n" + ("Phone: " + (phone + ("\n"
            + ("Service: " + (service + ("\n" + ("" + ("\n" + ("Message:" + ("\n" + m)))))))))))))))
  {
    var q4 := "\n" + ("" + ("\n" + ("Message:" + ("\n" + m))));
    assert "\n\nMessage:\n" + m == q4 by {
      assert "\n\nMessage:\n" == "\n" + ("" + ("\n" + ("Message:" + "\n")));
    }
    var q3 := "\n" + ("Service: " + (service + q4));
    assert "\nService: " + (service + q4) == q3 by {
      assert "\nService: " == "\n" + "Service: ";
      NewlineBefore("Service: ", service + q4);
    }
    var q2 := "\n" + ("Phone: " + (phone + q3));
    assert "\nPhone: " + (phone + q3) == q2 by {
      assert "\nPhone: " == "\n" + "Phone: ";
      NewlineBefore("Phone: ", phone + q3);
    }
    var q1 := "\n" + ("Email: " + (email + q2));
    assert "\nEmail: " + (email + q2) == q1 by {
      assert "\nEmail: " == "\n" + "Email: ";
      NewlineBefore("Email: ", email + q2);
    }
  }

  lemma NewlineBefore(tag: string, x: string)
    ensures "\n" + tag + x == "\n" + (tag + x)
  {
  }

  /** The fallback link `mailto:<address>?subject=<subject>&body=<body>`, both
      query values passed through `encodeURIComponent`. */
  function MailtoLink(f: Form): string
  {
    MailtoTarget + SubjectQuery + Encode(MailtoSubject(f)) + BodyQuery + Encode(MailtoBody(f))
  }

  /** `s` without the leading `prefix`, if it starts with it. */
  function StripPrefix(s: string, prefix: string): Option<string>
  {
    if |prefix| <= |s| && s[..|prefix|] == prefix then Some(s[|prefix|..]) else None
  }

  lemma StripPrefixOf(prefix: string, t: string)
    ensures StripPrefix(prefix + t, prefix) == Some(t)
  {
    assert (prefix + t)[..|prefix|] == prefix && (prefix + t)[|prefix|..] == t;
  }

  /** `s` split around its first `c`, if it has one. */
  function SplitAtFirst(s: string, c: char): Option<(string, string)>
  {
    if c in s then var i := IndexOf(s, c); Some((s[..i], s[i + 1..])) else None
  }

  lemma SplitAtFirstOf(a: string, c: char, b: string)
    requires c !in a
    ensures SplitAtFirst(a + [c] + b, c) == Some((a, b))
  {
    var s := a + [c] + b;
    assert s[|a|] == c;
    assert IndexOf(s, c) == |a|;
    assert s[..|a|] == a && s[|a| + 1..] == b;
  }

  /** What a mail client reads from such a link: the decoded subject and body,
      split at the first `&`. */
  function ParseMailto(link: string): Option<(string, string)>
  {
    var query := StripPrefix(link, MailtoTarget + SubjectQuery);
    if query.None? then None
    else
      var parts := SplitAtFirst(query.value, '&');
      if parts.None? then None
      else
        var encodedBody := StripPrefix(parts.value.1, "body=");
        if encodedBody.None? then None
        else
          var subject, body := Decode(parts.value.0), Decode(encodedBody.value);
          if subject.Some? && body.Some? then Some((subject.value, body.value)) else None
  }

  /** `ParseMailto` in terms of its stages. */
  lemma ParseMailtoSteps(link: string, query: string, encodedSubject: string, tail: string,
                         encodedBody: string, subject: string, body: string)
    requires StripPrefix(link, MailtoTarget + SubjectQuery) == Some(query)
    requires SplitAtFirst(query, '&') == Some((encodedSubject, tail))
    requires StripPrefix(tail, "body=") == Some(encodedBody)
    requires Decode(encodedSubject) == Some(subject) && Decode(encodedBody) == Some(body)
    ensures ParseMailto(link) == Some((subject, body))
  {
  }

  /** An encoded component holds no `&`. */
  lemma NoAmpersandInEncoded(s: string)
    ensures '&' !in Encode(s)
  {
    var e := Encode(s);
    EncodeIsEncoded(s);
    forall i | 0 <= i < |e| ensures e[i] != '&' {
      assert IsEncodedChar(e[i]);
    }
  }

  /** The built link is the parsed prefix followed by the query string. */
  lemma BuiltLinkShape(es: string, eb: string)
    ensures MailtoTarget + SubjectQuery + es + BodyQuery + eb
         == (MailtoTarget + SubjectQuery) + (es + ['&'] + ("body=" + eb))
  {
    assert BodyQuery == ['&'] + "body=";
  }

  /** A link built from any subject and body parses back into them. */
  lemma ParseBuiltLink(subject: string, body: string)
    ensures ParseMailto(MailtoTarget + SubjectQuery + Encode(subject) + BodyQuery + Encode(body))
         == Some((subject, body))
  {
    var head := MailtoTarget + SubjectQuery;
    var es, eb := Encode(subject), Encode(body);
    var tail := "body=" + eb;
    var link := MailtoTarget + SubjectQuery + es + BodyQuery + eb;
    var query := es + ['&'] + tail;
    assert StripPrefix(link, head) == Some(query) by {
      BuiltLinkShape(es, eb);
      StripPrefixOf(head, query);
    }
    assert SplitAtFirst(query, '&') == Some((es, tail)) by {
      NoAmpersandInEncoded(subject);
      SplitAtFirstOf(es, '&', tail);
    }
    assert StripPrefix(tail, "body=") == Some(eb) by {
      StripPrefixOf("body=", eb);
    }
    DecodeEncode(subject);
    DecodeEncode(body);
    ParseMailtoSteps(link, query, es, tail, eb, subject, body);
  }

  /** The mail client receives exactly the subject and body the form built:
      encoding leaves no `&` for the split to trip over, and decoding undoes it. */
  lemma MailtoRoundTrip(f: Form)
    ensures ParseMailto(MailtoLink(f)) == Some((MailtoSubject(f), MailtoBody(f)))
  {
    ParseBuiltLink(MailtoSubject(f), MailtoBody(f));
  }

  /** The lines of a text, split at each `\n`. */
  function Lines(s: string): (r: seq<string>)
    ensures |r| >= 1
    decreases |s|
  {
    match SplitAtFirst(s, '\n')
    case Some((line, rest)) => [line] + Lines(rest)
    case None => [s]
  }

  /** A line break after a line-free text splits off exactly that text. */
  lemma LinesAfter(a: string, b: string)
    requires '\n' !in a
    ensures Lines(a + "\n" + b) == [a] + Lines(b)
  {
    SplitAtFirstOf(a, '\n', b);
  }

  /** No line of `ls` contains a line break. */
  predicate LineFree(ls: seq<string>)
  {
    ls == [] || ('\n' !in ls[0] && LineFree(ls[1..]))
  }

  /** Line-free lines joined this way split back into themselves. */
  lemma {:induction false} LinesOfLinesThen(ls: seq<string>, rest: string)
    requires LineFree(ls)
    ensures Lines(LinesThen(ls, rest)) == ls + Lines(rest)
  {
    if ls != [] {
      var tail := LinesThen(ls[1..], rest);
      assert Lines(LinesThen(ls, rest)) == [ls[0]] + Lines(tail) by {
        assert LinesThen(ls, rest) == ls[0] + "\n" + tail;
        LinesAfter(ls[0], tail);
      }
      assert Lines(tail) == ls[1..] + Lines(rest) by {
        LinesOfLinesThen(ls[1..], rest);
      }
      ConsAppend(ls, Lines(rest));
    }
  }

  lemma MailtoHeaderLineFree(f: Form)
    requires '\n' !in f.name && '\n' !in f.email && '\n' !in f.phone && '\n' !in f.service
    ensures LineFree(MailtoHeader(f))
  {
    var ls := MailtoHeader(f);
    assert '\n' !in ls[0] by { assert ls[0] == "Name: " + f.name; }
    assert '\n' !in ls[1] by { assert ls[1] == "Email: " + f.email; }
    assert '\n' !in ls[2] by { assert ls[2] == "Phone: " + f.phone; }
    assert '\n' !in ls[3] by { assert ls[3] == "Service: " + f.service; }
    assert LineFree(ls[5..]);
    assert LineFree(ls[4..]);
    assert LineFree(ls[3..]);
    assert LineFree(ls[2..]);
    assert LineFree(ls[1..]);
  }

  /** When the header fields hold no line break, the body reads as the four
      labelled header lines, a blank line, the `Message:` label and then the
      message's own lines, in that order. */
  lemma MailtoBodyLines(f: Form)
    requires '\n' !in f.name && '\n' !in f.email && '\n' !in f.phone && '\n' !in f.service
    ensures Lines(MailtoBody(f)) == MailtoHeader(f) + Lines(f.message)
  {
    MailtoHeaderLineFree(f);
    LinesOfLinesThen(MailtoHeader(f), f.message);
  }
}
