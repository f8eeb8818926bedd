/** What the two event-creation forms share: the form record, the field
    update, the submit validation and the conversion of the picked instant
    into the stored date and time. Instants are UTC milliseconds; `offset`
    is the browser's local time minus UTC, in milliseconds, taken as fixed. */
module EventForm {
  import opened EventTypes
  import opened EventStore

  /** The form's `NewEvent` state: four strings, all empty at first. */
  datatype FormData = FormData(name: string, date: string, time: string, description: string)

  const EMPTY_FORM: FormData := FormData("", "", "", "")

  /** The `name` attribute of the input that changed. */
  datatype FieldName = NameField | DateField | TimeField | DescriptionField

  function Get(f: FormData, field: FieldName): string {
    match field
    case NameField => f.name
    case DateField => f.date
    case TimeField => f.time
    case DescriptionField => f.description
  }

  /** `handleChange`: `{...prev, [name]: value}`. */
  function WithField(f: FormData, field: FieldName, value: string): (r: FormData)
    ensures Get(r, field) == value
    ensures forall other :: other != field ==> Get(r, other) == Get(f, other)
  {
    match field
    case NameField => f.(name := value)
    case DateField => f.(date := value)
    case TimeField => f.(time := value)
    case DescriptionField => f.(description := value)
  }

  /** The stored date and time as the forms compute them: the date is the
      UTC calendar day of the picked instant (`toISOString`), the time its
      local hours and minutes (`toTimeString`), and the pair is read back as
      local time. */
  function WrittenTarget(picked: int, offset: int): int {
    (picked / DAY_MS) * DAY_MS + (((picked + offset) % DAY_MS) / MINUTE_MS) * MINUTE_MS - offset
  }

  /** The stored date and time with both taken in local time: the picked
      instant cut down to its local minute. */
  function IntendedTarget(picked: int, offset: int): (target: int)
    ensures target <= picked < target + MINUTE_MS
    ensures (target + offset) % MINUTE_MS == 0
  {
    var local := picked + offset;
    MinuteFloor(local);
    (local / DAY_MS) * DAY_MS + ((local % DAY_MS) / MINUTE_MS) * MINUTE_MS - offset
  }

  lemma MinuteFloor(local: int)
    ensures (local / DAY_MS) * DAY_MS + ((local % DAY_MS) / MINUTE_MS) * MINUTE_MS == local - local % MINUTE_MS
    ensures (local - local % MINUTE_MS) % MINUTE_MS == 0
  {
    ModOfMultiple(local, DAY_MS, MINUTE_MS);
    var r := local % DAY_MS;
    assert r == (r / MINUTE_MS) * MINUTE_MS + r % MINUTE_MS;
    DivModUnique(local - local % MINUTE_MS, local / MINUTE_MS, 0, MINUTE_MS);
  }

  /** The conversion as written misses the intended one by the difference
      between the UTC and the local calendar day, in whole days. */
  lemma WrittenTargetShift(picked: int, offset: int)
    ensures WrittenTarget(picked, offset) ==
      IntendedTarget(picked, offset) + (picked / DAY_MS - (picked + offset) / DAY_MS) * DAY_MS
  {
  }

  /** At offset +05:30, an instant picked at 03:00 local time (21:30 UTC of
      the previous day) is stored a whole day early: at 03:00 local of the
      day before, in the past of a user for whom the pick was in the future. */
  lemma WrittenTargetDayEarly()
    ensures WrittenTarget(77400000, 19800000) == 77400000 - DAY_MS
    ensures IntendedTarget(77400000, 19800000) == 77400000
  {
    assert 77400000 / DAY_MS == 0;
    assert (77400000 + 19800000) / DAY_MS == 1;
  }

  /** When the UTC and the local calendar day agree, the two conversions agree. */
  lemma SameDayAgrees(picked: int, offset: int)
    requires picked / DAY_MS == (picked + offset) / DAY_MS
    ensures WrittenTarget(picked, offset) == IntendedTarget(picked, offset)
  {
    WrittenTargetShift(picked, offset);
  }

  /** What a submit does. */
  datatype SubmitOutcome = MissingFields | NotInFuture | Submitted(event: NewEvent)

  /** `handleSubmit`'s checks: a name and a picked instant are required, the
      instant must be after `now`, and the payload carries the form's name
      and description with the instant converted as the forms do it. */
  function Validate(form: FormData, selected: Option<int>, now: int, offset: int): SubmitOutcome {
    if form.name == "" || selected.None? then MissingFields
    else if selected.value <= now then NotInFuture
    else Submitted(NewEvent(form.name, WrittenTarget(selected.value, offset), form.description))
  }

  /** The checks in order, both directions: missing name or instant first,
      then a past or present instant, otherwise a payload with the form's
      name and description whose instant is the pick to the minute, moved by
      the gap between the UTC and the local day; when the two days agree it
      is the pick to the minute. */
  lemma ValidateSpec(form: FormData, selected: Option<int>, now: int, offset: int)
    ensures Validate(form, selected, now, offset) == MissingFields <==> form.name == "" || selected.None?
    ensures Validate(form, selected, now, offset) == NotInFuture <==>
      form.name != "" && selected.Some? && selected.value <= now
    ensures Validate(form, selected, now, offset).Submitted? <==>
      form.name != "" && selected.Some? && selected.value > now
    ensures Validate(form, selected, now, offset).Submitted? ==>
      var ev := Validate(form, selected, now, offset).event;
      var p := selected.value;
      && ev.name == form.name && ev.name != "" && ev.description == form.description
      && ev.target == IntendedTarget(p, offset) + (p / DAY_MS - (p + offset) / DAY_MS) * DAY_MS
      && (p / DAY_MS == (p + offset) / DAY_MS ==> ev.target <= p < ev.target + MINUTE_MS)
  {
    if selected.Some? {
      WrittenTargetShift(selected.value, offset);
    }
  }

  /** As written, a form submitted at +05:30 with 03:00 local picked passes
      every check and yet hands on an instant already a day in the past. */
  lemma SubmittedDayEarly()
    ensures Validate(FormData("a", "", "", ""), Some(77400000), 0, 19800000).Submitted?
    ensures Validate(FormData("a", "", "", ""), Some(77400000), 0, 19800000).event.target == 77400000 - DAY_MS
  {
    WrittenTargetDayEarly();
  }

  /** The checks with the corrected conversion: date and time both local. */
  function ValidateIntended(form: FormData, selected: Option<int>, now: int, offset: int): SubmitOutcome {
    match Validate(form, selected, now, offset)
    case Submitted(ev) => Submitted(ev.(target := IntendedTarget(selected.value, offset)))
    case other => other
  }

  /** The corrected submit rejects what the written one rejects and
      otherwise stores the pick to the minute, whatever the offset. */
  lemma ValidateIntendedSpec(form: FormData, selected: Option<int>, now: int, offset: int)
    ensures !Validate(form, selected, now, offset).Submitted? ==>
      ValidateIntended(form, selected, now, offset) == Validate(form, selected, now, offset)
    ensures ValidateIntended(form, selected, now, offset).Submitted? <==>
      form.name != "" && selected.Some? && selected.value > now
    ensures ValidateIntended(form, selected, now, offset).Submitted? ==>
      var ev := ValidateIntended(form, selected, now, offset).event;
      && ev.name == form.name && ev.description == form.description
      && ev.target <= selected.value < ev.target + MINUTE_MS
      && (ev.target + offset) % MINUTE_MS == 0
  {
  }

  /** The future check looks at the picked instant, not at the stored one:
      a pick less than a minute ahead can be stored at or before `now`. */
  lemma SubmittedMayBeDue()
    ensures Validate(FormData("a", "", "", ""), Some(30000), 0, 0).Submitted?
    ensures Validate(FormData("a", "", "", ""), Some(30000), 0, 0).event.target == 0
  {
  }
}
