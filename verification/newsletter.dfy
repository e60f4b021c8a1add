/** The newsletter form (`initNewsletterForm`): the input field with its
    live `invalid` mark, the submit button, and the simulated submission
    whose 1.5 second delay is an explicit event here. */
module Newsletter {
  import opened Wrappers
  import opened Text
  import opened Email
  import opened Notifications

  const SubscribeLabel := "Subscribe"
  const SubscribingLabel := "Subscribing..."
  const EmptyMessage := "Please enter your email address"
  const InvalidMessage := "Please enter a valid email address"
  const ThanksMessage := "Thank you for subscribing!"

  /** The field's text and `invalid` class, the button's `disabled` flag and
      caption, whether the completion timer is scheduled, and the toasts. */
  datatype Form = Form(
    value: string,
    invalid: bool,
    disabled: bool,
    caption: string,
    pending: bool,
    toasts: Center)

  datatype Event =
    | Input(text: string)       // the user edits the field to `text`
    | Click                     // a click on the submit button
    | KeyPress(key: string)     // a key pressed in the field
    | DelayElapsed              // the submission timer fires

  /** What a submit click decides, in the order the handler tests it. */
  datatype Outcome = EmptyError | InvalidError | Submitting

  function Init(): (f: Form)
    ensures Consistent(f)
  {
    Form("", false, false, SubscribeLabel, false, Empty())
  }

  /** The button shows the in-progress caption and is disabled exactly while a
      submission is pending, and at most one toast is up. */
  predicate Consistent(f: Form) {
    && (f.pending ==> f.disabled && f.caption == SubscribingLabel)
    && (!f.pending ==> !f.disabled && f.caption == SubscribeLabel)
    && Valid(f.toasts)
  }

  /** The live mark set on every `input` event, from the raw value. */
  function MarkInvalid(text: string): (r: bool)
    ensures r <==> text != [] && !MatchesPattern(text)
  {
    CheckerDecidesPattern(text);
    text != [] && !IsValidEmail(text)
  }

  /** The gate of the click handler, applied to the trimmed value. */
  function Classify(value: string): (o: Outcome)
    ensures o == EmptyError <==> AllSpace(value)
    ensures o == InvalidError <==> !AllSpace(value) && !MatchesPattern(Trim(value))
    ensures o == Submitting <==> MatchesPattern(Trim(value))
  {
    var email := Trim(value);
    CheckerDecidesPattern(email);
    if email == [] then EmptyError
    else if !IsValidEmail(email) then InvalidError
    else Submitting
  }

  /** The click handler: an error toast and nothing else on a rejected value;
      otherwise the button is disabled, given the in-progress caption, and the timer scheduled. */
  function Submit(f: Form): (r: Form)
    ensures r.value == f.value && r.invalid == f.invalid
    ensures Classify(f.value) == Submitting ==>
      r == f.(disabled := true, caption := SubscribingLabel, pending := true)
    ensures Classify(f.value) == EmptyError ==>
      r == f.(toasts := Notify(f.toasts, EmptyMessage, Error))
    ensures Classify(f.value) == InvalidError ==>
      r == f.(toasts := Notify(f.toasts, InvalidMessage, Error))
  {
    match Classify(f.value)
    case EmptyError => f.(toasts := Notify(f.toasts, EmptyMessage, Error))
    case InvalidError => f.(toasts := Notify(f.toasts, InvalidMessage, Error))
    case Submitting => f.(disabled := true, caption := SubscribingLabel, pending := true)
  }

  /** The timer callback: thank the user, clear the field and restore the
      button. Assigning the field's value fires no `input` event, so the
      `invalid` mark is left as it was. */
  function Complete(f: Form): (r: Form)
    ensures r.value == [] && !r.disabled && r.caption == SubscribeLabel && !r.pending
    ensures r.invalid == f.invalid
    ensures Valid(f.toasts) ==> Current(r.toasts) == Some(Toast(f.toasts.nextId, ThanksMessage, Success))
  {
    Form("", f.invalid, false, SubscribeLabel, false, Notify(f.toasts, ThanksMessage, Success))
  }

  /** One event. A disabled button delivers no click, whether clicked or
      activated by the Enter handler's `btn.click()`; the timer callback only
      runs when it was scheduled. */
  function Step(f: Form, e: Event): Form {
    match e
    case Input(text) => f.(value := text, invalid := MarkInvalid(text))
    case Click => if f.disabled then f else Submit(f)
    case KeyPress(key) => if key == "Enter" && !f.disabled then Submit(f) else f
    case DelayElapsed => if f.pending then Complete(f) else f
  }

  function Run(f: Form, events: seq<Event>): Form
    decreases |events|
  {
    if events == [] then f else Run(Step(f, events[0]), events[1..])
  }

  /** Every event keeps the button, the timer and the toast area in agreement. */
  lemma StepConsistent(f: Form, e: Event)
    requires Consistent(f)
    ensures Consistent(Step(f, e))
  {
  }

  lemma {:induction false} RunConsistent(f: Form, events: seq<Event>)
    requires Consistent(f)
    ensures Consistent(Run(f, events))
    decreases |events|
  {
    if events != [] {
      StepConsistent(f, events[0]);
      RunConsistent(Step(f, events[0]), events[1..]);
    }
  }

  /** While a submission is pending, clicks and Enter change nothing, so at most
      one submission is ever in flight. */
  lemma NoSecondSubmission(f: Form, e: Event)
    requires Consistent(f) && f.pending
    requires e == Click || e.KeyPress?
    ensures Step(f, e) == f
  {
  }

  /** Enter in the field behaves exactly like a click on the button. */
  lemma EnterIsClick(f: Form)
    ensures Step(f, KeyPress("Enter")) == Step(f, Click)
  {
  }

  /** A value that the live check leaves unmarked is accepted on submit:
      an accepted value has no whitespace, so trimming does not change it. */
  lemma UnmarkedValueSubmits(f: Form, text: string)
    requires Consistent(f) && !f.pending && text != []
    ensures var g := Step(Step(f, Input(text)), Click);
      !g.invalid ==> g.pending && g.caption == SubscribingLabel
  {
    var g := Step(f, Input(text));
    if !g.invalid {
      ValidIsTrimmed(text);
    }
  }

  /** The live mark and the submit check disagree on padded input: the raw
      value `" a@b.c "` is marked invalid while typing, yet its trimmed form
      is accepted and the submission starts. */
  lemma PaddedValueMarkedButAccepted(f: Form)
    requires Consistent(f) && !f.pending
    ensures var g := Step(f, Input(" a@b.c "));
      g.invalid && Step(g, Click).pending
  {
    PaddedClassified();
  }

  /** The raw value `" a@b.c "` fails the check, its trimmed form passes. */
  lemma PaddedClassified()
    ensures MarkInvalid(" a@b.c ")
    ensures Classify(" a@b.c ") == Submitting
  {
    var raw := " a@b.c ";
    assert !NoSpace(raw) by { assert IsSpace(raw[0]); }
    assert Trim(raw) == "a@b.c" by {
      assert " " + "a@b.c" + " " == raw;
      TrimStripsPadding(" ", "a@b.c", " ");
    }
    AcceptedExamples();
  }

  /** Submitting `"not-an-email"` shows the error toast and leaves the field
      and the button as they were. */
  lemma RejectedSubmission()
    ensures var f := Step(Step(Init(), Input("not-an-email")), Click);
      && f.value == "not-an-email"
      && f.invalid
      && !f.disabled && f.caption == SubscribeLabel && !f.pending
      && Current(f.toasts) == Some(Toast(0, InvalidMessage, Error))
  {
    var raw := "not-an-email";
    assert forall k :: 0 <= k < |raw| ==> raw[k] != '@' && !IsSpace(raw[k]);
    NoAtSignClassified(raw);
  }

  /** A non-empty value with no `@` and no whitespace is marked while typing
      and rejected as malformed on submit. */
  lemma NoAtSignClassified(raw: string)
    requires raw != [] && NoSpace(raw)
    requires forall k :: 0 <= k < |raw| ==> raw[k] != '@'
    ensures MarkInvalid(raw)
    ensures Classify(raw) == InvalidError
  {
    NoAtSignRejected(raw);
    CheckerDecidesPattern(raw);
  }

  /** Submitting `"a@b.co"` disables the button with the in-progress caption;
      when the delay has passed the thank-you toast is up, the field is empty
      and the button is back to `Subscribe`. */
  lemma AcceptedSubmission()
    ensures var f := Step(Step(Init(), Input("a@b.co")), Click);
      f.disabled && f.caption == SubscribingLabel && f.pending && f.value == "a@b.co"
    ensures var f := Step(Step(Step(Init(), Input("a@b.co")), Click), DelayElapsed);
      && f.value == [] && !f.disabled && f.caption == SubscribeLabel
      && Current(f.toasts) == Some(Toast(0, ThanksMessage, Success))
  {
    AcceptedExamples();
    ValidIsTrimmed("a@b.co");
  }
}
