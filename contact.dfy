/**
 * The contact form: its submit handler checks the two required fields,
 * then stands in for a network request with a 1.5 s timer, during which
 * the submit button is disabled and relabelled.
 */
module Contact {

  import Notify

  const ErrorMessage: string := "Пожалуйста, заполните обязательные поля"
  const SuccessMessage: string := "Спасибо! Ваша заявка отправлена. Мы свяжемся с вами в ближайшее время!"
  /** The submit button's label while the request is under way. */
  const SendingLabel: string := "Отправка..."
  /** Milliseconds the mocked request takes. */
  const SendDelay: nat := 1500

  /** The values of the form's fields when it is submitted. */
  datatype Fields = Fields(name: string, phone: string, email: string, destination: string, message: string)

  /** The fields after `reset()`, assuming every field's default value in the markup is empty. */
  const Blank: Fields := Fields("", "", "", "", "")

  /** The form's only check: a submission needs a name and a phone; the other fields are optional. */
  predicate MissingRequired(f: Fields)
  {
    f.name == "" || f.phone == ""
  }

  class ContactForm {
    var fields: Fields
    var buttonLabel: string
    var buttonDisabled: bool
    /** For each request still under way, oldest first, the label its timer will put back. */
    var pending: seq<string>
    const toasts: Notify.Notifier

    ghost predicate Valid()
      reads this, toasts
    {
      toasts.Valid()
    }

    /** Page load: empty fields, the button as the markup labels it. */
    constructor (caption: string, toasts: Notify.Notifier)
      requires toasts.Valid()
      ensures Valid() && this.toasts == toasts
      ensures fields == Blank && buttonLabel == caption && !buttonDisabled && pending == []
    {
      fields := Blank;
      buttonLabel := caption;
      buttonDisabled := false;
      pending := [];
      this.toasts := toasts;
    }

    /** The user types into the form: the fields take the values `f`, and nothing else changes. */
    method Fill(f: Fields)
      modifies this
      ensures fields == f
      ensures buttonLabel == old(buttonLabel) && buttonDisabled == old(buttonDisabled) && pending == old(pending)
    {
      fields := f;
    }

    /**
     * The submit handler. Without a name or a phone it shows the error toast
     * and stops; otherwise it relabels and disables the button and starts
     * the mocked request, which remembers the label it found.
     */
    method Submit()
      requires Valid()
      modifies this, toasts
      ensures Valid() && fields == old(fields)
      ensures MissingRequired(fields) ==>
        toasts.live == [Notify.Notification(old(toasts.nextId), ErrorMessage, "error")] &&
        toasts.nextId == old(toasts.nextId) + 1 &&
        toasts.live[0].ClassName() == "notification error" && toasts.live[0].Icon() == Notify.ErrorIcon &&
        buttonLabel == old(buttonLabel) && buttonDisabled == old(buttonDisabled) && pending == old(pending)
      ensures !MissingRequired(fields) ==>
        toasts.live == old(toasts.live) && toasts.nextId == old(toasts.nextId) &&
        buttonLabel == SendingLabel && buttonDisabled && pending == old(pending) + [old(buttonLabel)]
    {
      if fields.name == "" || fields.phone == "" {
        var n := toasts.Show(ErrorMessage, "error");
        return;
      }
      pending := pending + [buttonLabel];
      buttonLabel := SendingLabel;
      buttonDisabled := true;
    }

    /**
     * The oldest request's timer fires: success toast, fields cleared, and
     * the button enabled again with the label that request found.
     */
    method OnSendTimeout()
      requires Valid() && |pending| > 0
      modifies this, toasts
      ensures Valid()
      ensures toasts.live == [Notify.Notification(old(toasts.nextId), SuccessMessage, "success")]
      ensures toasts.nextId == old(toasts.nextId) + 1
      ensures toasts.live[0].ClassName() == "notification success" && toasts.live[0].Icon() == Notify.SuccessIcon
      ensures fields == Blank
      ensures buttonLabel == old(pending[0]) && !buttonDisabled
      ensures pending == old(pending[1..])
    {
      var n := toasts.Show(SuccessMessage, "success");
      fields := Blank;
      buttonLabel := pending[0];
      buttonDisabled := false;
      pending := pending[1..];
    }
  }

  /**
   * A client view: the user types fields with a name and a phone, submits,
   * and the timer fires; the button is back as it was, the form is cleared
   * and the success toast is on the page.
   */
  method SubmitAndWait(form: ContactForm, f: Fields)
    requires form.Valid() && form.pending == [] && !MissingRequired(f)
    modifies form, form.toasts
    ensures form.Valid() && form.pending == []
    ensures form.buttonLabel == old(form.buttonLabel) && !form.buttonDisabled
    ensures form.fields == Blank && |form.toasts.live| == 1 && form.toasts.live[0].message == SuccessMessage
  {
    form.Fill(f);
    form.Submit();
    form.OnSendTimeout();
  }

  /**
   * A client view: a second submission before the first timer fires finds
   * the sending label and hands it back at the end, so the button keeps
   * showing it.
   */
  method SubmitTwiceKeepsSendingLabel(form: ContactForm)
    requires form.Valid() && form.pending == [] && !MissingRequired(form.fields)
    modifies form, form.toasts
    ensures form.Valid() && form.pending == []
    ensures form.buttonLabel == SendingLabel && !form.buttonDisabled
  {
    form.Submit();
    form.Submit();
    form.OnSendTimeout();
    form.OnSendTimeout();
  }
}
