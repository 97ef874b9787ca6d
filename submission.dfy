/** The contact form's submit handler: the validation gate, the request it
    issues, and the two ways the request can end. */
module Submission {
  import opened Optional
  import opened Chars
  import opened Email
  import opened Toast

  /** The body of the request: the three trimmed field values. */
  datatype ContactSubmission = ContactSubmission(name: string, email: string, message: string)

  /** The gate: a request is built exactly when the trimmed name is
      non-empty, the trimmed email passes `validateEmail` and the trimmed
      message is non-empty; it carries the trimmed values. */
  function Gate(name: string, email: string, message: string): (r: Option<ContactSubmission>)
    ensures r.Some? <==> !AllWhitespace(name) && ValidateEmail(Trim(email)) && !AllWhitespace(message)
    ensures r.Some? ==> r.value == ContactSubmission(Trim(name), Trim(email), Trim(message))
  {
    var n, e, m := Trim(name), Trim(email), Trim(message);
    if n != [] && ValidateEmail(e) && m != [] then Some(ContactSubmission(n, e, m)) else None
  }

  /** A field that is empty or only white space stops the submission. */
  lemma BlankFieldRefused(name: string, email: string, message: string)
    requires AllWhitespace(name) || AllWhitespace(email) || AllWhitespace(message)
    ensures Gate(name, email, message) == None
  {
    if AllWhitespace(email) {
      assert Trim(email) == [];
      NoAtRefused(Trim(email));
    }
  }

  /** A request that passes the gate carries a name and a message that are
      non-empty and have no white space at either end. */
  lemma GatedFieldsTrimmed(name: string, email: string, message: string)
    ensures Gate(name, email, message).Some? ==>
      Unpadded(Gate(name, email, message).value.name) && Unpadded(Gate(name, email, message).value.message)
  {
    TrimUnpadded(name);
    TrimUnpadded(message);
  }

  /** A request that passes the gate carries an address with no white space
      that matches the pattern. */
  lemma GatedEmailMatches(name: string, email: string, message: string)
    ensures Gate(name, email, message).Some? ==>
      NoWhitespace(Gate(name, email, message).value.email) && MatchesPattern(Gate(name, email, message).value.email)
  {
    if Gate(name, email, message).Some? {
      ValidAddressUnpadded(Trim(email));
    }
  }

  /** The values a request carries pass the gate again unchanged. */
  lemma GateIdempotent(name: string, email: string, message: string)
    ensures var r := Gate(name, email, message);
      r.Some? ==> Gate(r.value.name, r.value.email, r.value.message) == r
  {
    var r := Gate(name, email, message);
    if r.Some? {
      var p := r.value;
      ValidAddressUnpadded(p.email);
      TrimIdempotent(name);
      TrimIdempotent(message);
      RegateTrimmed(p.name, p.email, p.message);
    }
  }

  lemma ValidAddressUnpadded(e: string)
    requires ValidateEmail(e)
    ensures NoWhitespace(e) && MatchesPattern(e) && Trim(e) == e
  {
    CaseInsensitive(e);
    AcceptsIffDescribed(e);
    TrimKeepsUnpadded(e);
  }

  lemma RegateTrimmed(n: string, e: string, m: string)
    requires n != [] && m != [] && ValidateEmail(e)
    requires Trim(n) == n && Trim(e) == e && Trim(m) == m
    ensures Gate(n, e, m) == Some(ContactSubmission(n, e, m))
  {
  }

  /** How the request ended, as the promise chain sees it. */
  datatype Reply =
    | Response(ok: bool, bodyParses: bool)  // a response arrived; its status and whether `response.json()` resolved
    | NetworkFailure                         // `fetch` itself rejected

  datatype Outcome = Delivered | Failed

  /** The chain: a status that is not OK throws before the body is read, a
      body that does not parse rejects, and a rejected `fetch` goes straight to
      `catch`; only an OK status with a parsed body reaches the success step. */
  function OutcomeOf(reply: Reply): (o: Outcome)
    ensures o == Delivered <==> reply == Response(true, true)
  {
    match reply
    case NetworkFailure => Failed
    case Response(ok, parses) => if !ok then Failed else if !parses then Failed else Delivered
  }

  /** The contact page: the three input fields, the `formToast` element, and
      what an observer sees of the page over time (the notifications shown and
      the requests issued). */
  class ContactForm {
    var name: string
    var email: string
    var message: string
    /** The `formToast` element as it is now. */
    var toast: ToastView
    /** Every notification shown so far, in order. */
    var shown: seq<ToastView>
    /** Every request issued so far, in order. */
    var sent: seq<ContactSubmission>
    /** `formToast` as the page's markup has it: the success notice. */
    const markup: ToastView

    /** A freshly loaded page: empty fields, the toast as in the markup. */
    constructor (markup: ToastView)
      ensures this.markup == markup && toast == markup
      ensures name == [] && email == [] && message == []
      ensures shown == [] && sent == []
    {
      this.markup := markup;
      name, email, message := [], [], [];
      toast := markup;
      shown, sent := [], [];
    }

    /** The user types into the three fields. */
    method Fill(name: string, email: string, message: string)
      modifies this`name, this`email, this`message
      ensures this.name == name && this.email == email && this.message == message
      ensures unchanged(this`toast, this`shown, this`sent)
    {
      this.name, this.email, this.message := name, email, message;
    }

    /** The submit event: read and trim the fields and, when the gate lets
        them through, issue the request. Nothing else changes; in particular a
        refused submission shows nothing. */
    method Submit() returns (request: Option<ContactSubmission>)
      modifies this`sent
      ensures request == Gate(old(name), old(email), old(message))
      ensures request.Some? ==> sent == old(sent) + [request.value]
      ensures request.None? ==> sent == old(sent)
      ensures unchanged(this`name, this`email, this`message, this`toast, this`shown)
    {
      request := Gate(name, email, message);
      if request.Some? {
        sent := sent + [request.value];
      }
    }

    /** `form.reset()`: the fields go back to their empty defaults. */
    method Reset()
      modifies this`name, this`email, this`message
      ensures name == [] && email == [] && message == []
      ensures unchanged(this`toast, this`shown, this`sent)
    {
      name, email, message := [], [], [];
    }

    /** The reply arriving, as the handler is written: on success the
        element is shown as it stands and the form is reset; on failure
        `showToast` rewrites the element with the error and shows it, and the
        fields are kept. */
    method ReceiveAsWritten(reply: Reply)
      modifies this`name, this`email, this`message, this`toast, this`shown
      ensures unchanged(this`sent)
      ensures OutcomeOf(reply) == Delivered ==>
        && toast == old(toast) && shown == old(shown) + [old(toast)]
        && name == [] && email == [] && message == []
      ensures OutcomeOf(reply) == Failed ==>
        && toast == ShowToast(ErrorMessage, "error") && shown == old(shown) + [toast]
        && name == old(name) && email == old(email) && message == old(message)
    {
      if OutcomeOf(reply) == Delivered {
        shown := shown + [toast];
        Reset();
      } else {
        toast := ShowToast(ErrorMessage, "error");
        shown := shown + [toast];
      }
    }

    /** The reply arriving, with the success notice restored before it is
        shown: every success shows the markup's notice, every failure the
        error, and only a success resets the form. */
    method Receive(reply: Reply)
      modifies this`name, this`email, this`message, this`toast, this`shown
      ensures unchanged(this`sent)
      ensures OutcomeOf(reply) == Delivered ==>
        && toast == markup && shown == old(shown) + [markup]
        && name == [] && email == [] && message == []
      ensures OutcomeOf(reply) == Failed ==>
        && toast == ShowToast(ErrorMessage, "error") && shown == old(shown) + [toast]
        && name == old(name) && email == old(email) && message == old(message)
    {
      if OutcomeOf(reply) == Delivered {
        toast := markup;
        shown := shown + [toast];
        Reset();
      } else {
        toast := ShowToast(ErrorMessage, "error");
        shown := shown + [toast];
      }
    }
  }

  /** A failed request followed by a successful one, on the handler as
      written: the success shows the error notice left behind by the failure,
      which is not the page's success notice. */
  method StaleNoticeAsWritten(markup: ToastView) returns (seen: ToastView)
    requires markup.className == ToastClassName("success")
    ensures seen == ShowToast(ErrorMessage, "error")
    ensures seen != markup
  {
    var page := new ContactForm(markup);
    page.ReceiveAsWritten(NetworkFailure);
    page.ReceiveAsWritten(Response(true, true));
    seen := page.shown[1];
    StyleRecovered("success");
  }

  /** The same two replies on the corrected handler: the success shows the
      markup's notice. */
  method FreshNotice(markup: ToastView) returns (seen: ToastView)
    ensures seen == markup
  {
    var page := new ContactForm(markup);
    page.Receive(NetworkFailure);
    page.Receive(Response(true, true));
    seen := page.shown[1];
  }
}
