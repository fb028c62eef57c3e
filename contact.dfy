/** The contact form: five text fields updated one at a time by input name,
    and a two-phase submit (mark as sending, then after a fixed delay show a
    success notice, clear the form and drop the mark). */
module Contact {

  /** The `name` attributes of the form's inputs. */
  datatype Field = Name | Email | Business | Phone | Message

  datatype FormData = FormData(name: string, email: string, business: string, phone: string, message: string)

  const EmptyForm: FormData := FormData("", "", "", "", "")

  function Get(f: FormData, k: Field): string {
    match k
    case Name => f.name
    case Email => f.email
    case Business => f.business
    case Phone => f.phone
    case Message => f.message
  }

  /** `{...formData, [name]: value}`: the field named `k` becomes `v`, the others stay. */
  function With(f: FormData, k: Field, v: string): (r: FormData)
    ensures Get(r, k) == v
    ensures forall j :: j != k ==> Get(r, j) == Get(f, j)
  {
    match k
    case Name => f.(name := v)
    case Email => f.(email := v)
    case Business => f.(business := v)
    case Phone => f.(phone := v)
    case Message => f.(message := v)
  }

  /** A form is determined by what each of its fields reads. */
  lemma FormExtensional(f: FormData, g: FormData)
    requires forall k :: Get(f, k) == Get(g, k)
    ensures f == g
  {
    assert Get(f, Name) == Get(g, Name) && Get(f, Email) == Get(g, Email);
    assert Get(f, Business) == Get(g, Business) && Get(f, Phone) == Get(g, Phone);
    assert Get(f, Message) == Get(g, Message);
  }

  /** Writing back what a field holds changes nothing; the last write to a field wins. */
  lemma WithLaws(f: FormData, k: Field, v: string, w: string)
    ensures With(f, k, Get(f, k)) == f
    ensures With(With(f, k, v), k, w) == With(f, k, w)
  {
    FormExtensional(With(f, k, Get(f, k)), f);
    FormExtensional(With(With(f, k, v), k, w), With(f, k, w));
  }

  /** Writes to different fields commute. */
  lemma WithCommutes(f: FormData, j: Field, v: string, k: Field, w: string)
    requires j != k
    ensures With(With(f, j, v), k, w) == With(With(f, k, w), j, v)
  {
    FormExtensional(With(With(f, j, v), k, w), With(With(f, k, w), j, v));
  }

  /** The inputs marked `required`. */
  predicate IsRequired(k: Field) {
    k == Name || k == Email || k == Business
  }

  /** The `required` check as non-emptiness: name, email and business must be
      filled; phone and message are optional. */
  predicate RequiredFilled(f: FormData)
    ensures RequiredFilled(f) <==> forall k :: IsRequired(k) ==> Get(f, k) != ""
  {
    assert Get(f, Name) == f.name && Get(f, Email) == f.email && Get(f, Business) == f.business;
    f.name != "" && f.email != "" && f.business != ""
  }

  datatype ContactState = ContactState(form: FormData, isSubmitting: bool)

  const Initial: ContactState := ContactState(EmptyForm, false)

  /** The toast shown when a submission completes. */
  datatype Notice = Notice(title: string, description: string, durationMs: nat)

  /** The title ends in the four characters the source holds where a rocket
      emoji was meant: its UTF-8 bytes read back as Windows-1252. */
  const SentNotice: Notice := Notice(
    "Message Sent! \U{F0}\U{178}\U{161}\U{20AC}",
    "We'll get back to you within 2 hours with your custom setup.",
    5000)

  datatype ContactEvent =
    | Input(field: Field, value: string)   // an input's change event
    | Submit                               // the submit button or Enter in a field
    | Resolve                              // the submission delay elapses

  /** A submit reaches the handler only when no submission is pending (the
      button is enabled) and the required inputs are filled. */
  predicate SubmitAccepted(s: ContactState) {
    !s.isSubmitting && RequiredFilled(s.form)
  }

  /** The submit button is disabled exactly while a submission is pending: a
      disabled button lets no submit through, and an enabled one lets every
      submit with the required inputs filled through. */
  predicate SubmitDisabled(s: ContactState)
    ensures SubmitDisabled(s) <==> s.isSubmitting
    ensures SubmitDisabled(s) ==> !SubmitAccepted(s)
    ensures !SubmitDisabled(s) && RequiredFilled(s.form) ==> SubmitAccepted(s)
  {
    s.isSubmitting
  }

  /** Over time the button is disabled exactly while a submission is pending:
      an accepted submit disables it, the completion enables it again, edits
      leave it as it is, and a submit that is not accepted changes nothing. */
  lemma SubmitDisabledWhilePending(s: ContactState, k: Field, v: string)
    ensures SubmitAccepted(s) ==> SubmitDisabled(Apply(s, Submit))
    ensures !SubmitAccepted(s) ==> SubmitDisabled(Apply(s, Submit)) == SubmitDisabled(s)
    ensures !SubmitDisabled(Apply(s, Resolve))
    ensures SubmitDisabled(Apply(s, Input(k, v))) == SubmitDisabled(s)
  {
  }

  /** The effect of one event. `Resolve` stands for the pending continuation,
      which exists exactly while `isSubmitting` is set. */
  function Apply(s: ContactState, e: ContactEvent): (r: ContactState)
    // only an accepted submit starts a submission
    ensures r.isSubmitting && !s.isSubmitting ==> e.Submit? && RequiredFilled(s.form)
    // only the completion ends one, and it clears the form
    ensures !r.isSubmitting && s.isSubmitting ==> e.Resolve? && r == Initial
    // the fields change only through an input or the completion
    ensures r.form != s.form ==> e.Input? || r == Initial
  {
    match e
    case Input(k, v) => s.(form := With(s.form, k, v))
    case Submit => if SubmitAccepted(s) then s.(isSubmitting := true) else s
    case Resolve => if s.isSubmitting then Initial else s
  }

  function ApplyAll(s: ContactState, events: seq<ContactEvent>): ContactState
    decreases |events|
  {
    if events == [] then s else ApplyAll(Apply(s, events[0]), events[1..])
  }

  /** Editing never starts or ends a submission. */
  lemma {:induction false} EditsKeepSubmitting(s: ContactState, events: seq<ContactEvent>)
    requires forall i :: 0 <= i < |events| ==> events[i].Input?
    ensures ApplyAll(s, events).isSubmitting == s.isSubmitting
    decreases |events|
  {
    if events != [] {
      EditsKeepSubmitting(Apply(s, events[0]), events[1..]);
    }
  }

  /** Once a submission starts, whatever is typed during the delay, its
      completion leaves an empty form that can be submitted again. */
  lemma SubmitCycleResets(s: ContactState, edits: seq<ContactEvent>)
    requires SubmitAccepted(s)
    requires forall i :: 0 <= i < |edits| ==> edits[i].Input?
    ensures ApplyAll(Apply(s, Submit), edits).isSubmitting
    ensures Apply(ApplyAll(Apply(s, Submit), edits), Resolve) == Initial
  {
    EditsKeepSubmitting(Apply(s, Submit), edits);
  }

  /** While a submission is pending a second submit does nothing. */
  lemma NoDoubleSubmit(s: ContactState)
    requires s.isSubmitting
    ensures Apply(s, Submit) == s
  {
  }

  /** Submissions start only with the required fields filled and from the idle state. */
  lemma SubmitStartsOnlyWhenAccepted(s: ContactState)
    ensures Apply(s, Submit).isSubmitting && !s.isSubmitting ==> RequiredFilled(s.form)
    ensures Apply(s, Submit).form == s.form
  {
  }

  /** The component. */
  class ContactSection {
    var formData: FormData
    var isSubmitting: bool

    function State(): ContactState
      reads this
    {
      ContactState(formData, isSubmitting)
    }

    constructor ()
      ensures State() == Initial
    {
      formData := EmptyForm;
      isSubmitting := false;
    }

    method HandleInputChange(k: Field, value: string)
      modifies this
      ensures formData == With(old(formData), k, value)
      ensures isSubmitting == old(isSubmitting)
    {
      formData := With(formData, k, value);
    }

    /** A submit event: ignored when the button is disabled or a required
        input is empty, otherwise the first half of handleSubmit. */
    method Submit() returns (started: bool)
      modifies this
      ensures started == SubmitAccepted(old(State()))
      ensures State() == Apply(old(State()), ContactEvent.Submit)
    {
      started := !isSubmitting && RequiredFilled(formData);
      if started {
        isSubmitting := true;
      }
    }

    /** The rest of handleSubmit once the delay has elapsed: there is no
        failure branch. */
    method CompleteSubmit() returns (notice: Notice)
      requires isSubmitting
      modifies this
      ensures notice == SentNotice
      ensures State() == Initial
    {
      notice := SentNotice;
      formData := EmptyForm;
      isSubmitting := false;
    }
  }
}
