/** The inline add-event panel: a toggle shows or hides the form; a
    successful submit hands the payload on, resets and hides the form and
    confirms with a message. */
module AddEventFormView {
  import opened EventTypes
  import opened EventForm

  class AddEventPanel {
    var formData: FormData
    var selected: Option<int>
    var isFormVisible: bool

    constructor ()
      ensures formData == EMPTY_FORM && selected == None && !isFormVisible
    {
      formData := EMPTY_FORM;
      selected := None;
      isFormVisible := false;
    }

    /** The `[INITIALIZE]` / `[ABORT]` header button. */
    method ToggleVisibility()
      modifies this
      ensures isFormVisible == !old(isFormVisible)
      ensures formData == old(formData) && selected == old(selected)
    {
      isFormVisible := !isFormVisible;
    }

    /** The `[ABORT]` button under the form: hides it, keeps the input. */
    method Abort()
      modifies this
      ensures !isFormVisible && formData == old(formData) && selected == old(selected)
    {
      isFormVisible := false;
    }

    /** `handleSubmit`, reachable only while the form is shown. `confirmed`
        is whether the success message is shown. */
    method HandleSubmit(now: int, offset: int) returns (outcome: SubmitOutcome, confirmed: bool)
      requires isFormVisible
      modifies this
      ensures outcome == Validate(old(formData), old(selected), now, offset)
      ensures confirmed <==> outcome.Submitted?
      ensures outcome.Submitted? ==> formData == EMPTY_FORM && selected == None && !isFormVisible
      ensures !outcome.Submitted? ==> formData == old(formData) && selected == old(selected) && isFormVisible
    {
      if formData.name == "" || selected.None? {
        return MissingFields, false;
      }
      var picked := selected.value;
      if picked <= now {
        return NotInFuture, false;
      }
      outcome := Submitted(NewEvent(formData.name, WrittenTarget(picked, offset), formData.description));
      formData := EMPTY_FORM;
      selected := None;
      isFormVisible := false;
      confirmed := true;
    }

    /** `handleChange` */
    method HandleChange(field: FieldName, value: string)
      modifies this
      ensures formData == WithField(old(formData), field, value)
      ensures selected == old(selected) && isFormVisible == old(isFormVisible)
    {
      formData := WithField(formData, field, value);
    }

    /** `handleDateTimeChange` */
    method HandleDateTimeChange(picked: Option<int>)
      modifies this
      ensures selected == picked
      ensures formData == old(formData) && isFormVisible == old(isFormVisible)
    {
      selected := picked;
    }
  }
}
