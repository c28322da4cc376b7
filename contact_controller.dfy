/** The contact section's state and its two event handlers. `handleSubmit`
    suspends twice, at the relay call and at reading its JSON answer, and
    changes no state between the two; `BeginSubmit` is what runs before the
    first, `FinishSubmit` what runs once the answer has been read, and
    `HandleSubmit` is the two with nothing in between. */
module ContactController {
  import opened Wrappers
  import opened ContactForm

  /** How the relay call ended: `result.success` truthy, a response whose
      `success` is missing or falsy, or an exception from `fetch` or from
      reading the JSON body. */
  datatype RelayOutcome = Success | Rejected | TransportError

  class ContactSection {
    var form: Form
    var errors: Errors
    var loading: bool
    var success: bool

    /** The state on mount: the empty form, no errors, not loading, no success. */
    constructor ()
      ensures form == InitialForm && errors == map[] && !loading && !success
    {
      form := InitialForm;
      errors := map[];
      loading := false;
      success := false;
    }

    /** `handleChange`: the input named `field` now holds `value`; nothing
        else changes. */
    method HandleChange(field: Field, value: string)
      modifies this
      ensures form == old(form).With(field, value)
      ensures form.Get(field) == value
      ensures forall g :: g != field ==> form.Get(g) == old(form).Get(g)
      ensures errors == old(errors) && loading == old(loading) && success == old(success)
    {
      form := form.With(field, value);
    }

    /** `handleSubmit` up to the relay call. The errors are replaced by those
        of the current form; if there are any, nothing is sent and nothing else
        changes; otherwise `loading` is set and the request for the form is
        returned. There is no guard on `loading`: a second submit while one is
        in flight sends again. */
    method BeginSubmit() returns (request: Option<Request>)
      modifies this
      ensures errors == Validate(old(form))
      ensures form == old(form) && success == old(success)
      ensures request.Some? <==> Validate(old(form)) == map[]
      ensures request.None? ==> loading == old(loading)
      ensures request.Some? ==> loading && request.value == RelayRequest(old(form))
    {
      errors := Validate(form);
      if errors == map[] {
        loading := true;
        request := Some(RelayRequest(form));
      } else {
        request := None;
      }
    }

    /** `handleSubmit` after the relay call, for the form `sent` it read when
        it began. On success the form is cleared and `success` set; on a
        rejection or a transport error the form is kept and the fallback link
        for `sent` is returned. `loading` ends false either way. */
    method FinishSubmit(sent: Form, outcome: RelayOutcome) returns (mailto: Option<string>)
      modifies this
      ensures !loading && errors == old(errors)
      ensures outcome == Success ==> form == InitialForm && success && mailto == None
      ensures outcome != Success ==>
        form == old(form) && success == old(success) && mailto == Some(MailtoLink(sent))
    {
      if outcome == Success {
        form := InitialForm;
        success := true;
        mailto := None;
      } else {
        mailto := Some(MailtoLink(sent));
      }
      loading := false;
    }

    /** `handleSubmit` with no other event while the relay call is pending. */
    method HandleSubmit(outcome: RelayOutcome) returns (request: Option<Request>, mailto: Option<string>)
      modifies this
      ensures errors == Validate(old(form))
      ensures request.Some? <==> Validate(old(form)) == map[]
      ensures request.None? ==>
        && form == old(form) && loading == old(loading) && success == old(success)
        && mailto == None
      ensures request.Some? ==>
        && request.value == RelayRequest(old(form))
        && !loading
        && (outcome == Success ==> form == InitialForm && success && mailto == None)
        && (outcome != Success ==>
              form == old(form) && success == old(success) && mailto == Some(MailtoLink(old(form))))
    {
      var sent := form;
      request := BeginSubmit();
      if request.None? {
        return request, None;
      }
      mailto := FinishSubmit(sent, outcome);
    }
  }

  /** A fresh section that is filled in validly and submitted: the relay
      receives the form as typed; on success the section is back to its
      initial state except for the success flag, otherwise it still holds the
      form and the fallback link for it is produced. */
  method SubmitValidForm(f: Form, outcome: RelayOutcome)
    returns (section: ContactSection, request: Option<Request>, mailto: Option<string>)
    requires Validate(f) == map[]
    ensures request == Some(RelayRequest(f))
    ensures section.errors == map[] && !section.loading
    ensures section.success <==> outcome == Success
    ensures section.form == if outcome == Success then InitialForm else f
    ensures outcome == Success ==> mailto == None
    ensures outcome != Success ==> mailto == Some(MailtoLink(f))
  {
    section := new ContactSection();
    section.HandleChange(Name, f.name);
    section.HandleChange(Email, f.email);
    section.HandleChange(Phone, f.phone);
    section.HandleChange(Subject, f.subject);
    section.HandleChange(Message, f.message);
    section.HandleChange(Service, f.service);
    assert section.form == f;
    request, mailto := section.HandleSubmit(outcome);
  }
}
