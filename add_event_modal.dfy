/** The add-event dialog. Its form state lives on while the dialog is
    closed, since a closed dialog renders nothing but keeps its state. */
module AddEventModalView {
  import opened EventTypes
  import opened EventForm

  class AddEventModal {
    var formData: FormData
    /** `selectedDateTime`: the instant picked, if any. */
    var selected: Option<int>
    /** The page's `isAddEventModalOpen`, which the dialog's `onClose` clears. */
    var isOpen: bool

    constructor ()
      ensures formData == EMPTY_FORM && selected == None && !isOpen
    {
      formData := EMPTY_FORM;
      selected := None;
      isOpen := false;
    }

    /** A closed dialog renders nothing. */
    predicate Rendered()
      reads this
    {
      isOpen
    }

    /** The page's add buttons. */
    method Open()
      modifies this
      ensures isOpen && formData == old(formData) && selected == old(selected)
    {
      isOpen := true;
    }

    /** `handleSubmit`: on an error the dialog stays as it is; otherwise the
        payload goes to `onAddEvent`, and the form is reset and the dialog
        closed without waiting for the store. */
    method HandleSubmit(now: int, offset: int) returns (outcome: SubmitOutcome)
      requires Rendered()
      modifies this
      ensures outcome == Validate(old(formData), old(selected), now, offset)
      ensures outcome.Submitted? ==> formData == EMPTY_FORM && selected == None && !isOpen
      ensures !outcome.Submitted? ==> formData == old(formData) && selected == old(selected) && isOpen
    {
      if formData.name == "" || selected.None? {
        return MissingFields;
      }
      var picked := selected.value;
      if picked <= now {
        return NotInFuture;
      }
      outcome := Submitted(NewEvent(formData.name, WrittenTarget(picked, offset), formData.description));
      formData := EMPTY_FORM;
      selected := None;
      isOpen := false;
    }

    /** `handleChange` */
    method HandleChange(field: FieldName, value: string)
      modifies this
      ensures formData == WithField(old(formData), field, value)
      ensures selected == old(selected) && isOpen == old(isOpen)
    {
      formData := WithField(formData, field, value);
    }

    /** `handleDateTimeChange` */
    method HandleDateTimeChange(picked: Option<int>)
      modifies this
      ensures selected == picked
      ensures formData == old(formData) && isOpen == old(isOpen)
    {
      selected := picked;
    }

    /** The close and cancel buttons: the dialog closes, the input stays. */
    method Close()
      modifies this
      ensures !isOpen && formData == old(formData) && selected == old(selected)
    {
      isOpen := false;
    }

    /** `handleBackdropClick`: only a click on the backdrop itself, not one
        inside the dialog, closes it. */
    method HandleBackdropClick(onBackdrop: bool)
      modifies this
      ensures isOpen == (old(isOpen) && !onBackdrop)
      ensures formData == old(formData) && selected == old(selected)
    {
      if onBackdrop {
        isOpen := false;
      }
    }
  }
}
