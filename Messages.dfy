/** The outcomes of the roster operations and the exact messages of the
    user errors that the Java code throws and its callers turn into strings. */
module Messages {

  datatype Option<T> = None | Some(value: T)

  /** A value, or the message of the user error that prevented it. */
  datatype Result<T> = Ok(value: T) | Err(message: string)

  /** Success, or the message of the user error that was raised. */
  datatype Outcome = Pass | Fail(message: string)

  const TimeFormatError := "ERROR: Time does not match format hh:mm"
  const InvalidTimesError := "ERROR: Start and/or end time invalid"
  const OutsideHoursError := "ERROR: Start and/or end time outside of working hours"
  const ClashError := "ERROR: Start and/or end time clashes with existing shifts"
  const NoSuchShiftError := "ERROR: Shift does not exist in day"
  const ManagerTakenError := "ERROR: Manager has already been assigned to this shift"
  const StaffTakenError := "ERROR: Staff member has already been assigned to this shift"
  const EmptyNameError := "ERROR: Employee name given is empty"
  const AlreadyRegisteredError := "ERROR: Employee has already been registered"
  const NoSuchDayError := "ERROR: Day does not exist in week"
  const NotRegisteredError := "ERROR: Staff member is not registered"

  /** The string the roster returns for an outcome: "" on success, else the
      error's message. Every message is non-empty, so "" means success. */
  function Reply(o: Outcome): (r: string)
    ensures r == "" <==> o.Pass?
    ensures o.Fail? ==> r == o.message
    requires o.Fail? ==> o.message != ""
  {
    match o
    case Pass => ""
    case Fail(m) => m
  }
}
