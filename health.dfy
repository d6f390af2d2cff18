/** Battery Doctor's health calculation: the ratio of the current full-charge
    capacity to the design capacity, both read from the kernel's power-supply
    files, with a fixed 100% when a file does not exist. */
module Health {

  /** What reading one capacity file (a value in microampere-hours) yields. */
  datatype CapacityFile =
    | Present(microAmpHours: real)  // the file exists and its text parses as a number
    | Missing                       // open() raises FileNotFoundError
    | Unreadable                    // open() or read() raises another OSError (e.g. permission denied)
    | Malformed                     // float() raises ValueError on the text

  /** The exceptions that escape `calculate_health` (only FileNotFoundError is caught). */
  datatype HealthError = OsError | ValueError | ZeroDivisionError

  datatype Outcome = Ok(percent: real) | Raised(error: HealthError)

  /** The value assumed when a capacity file does not exist. */
  const FallbackPercent: real := 100.0

  /** Reading one file: microampere-hours scaled to milliampere-hours, or the
      exception the read raises. */
  datatype Reading = Value(milliAmpHours: real) | NotFound | Failed(error: HealthError)

  function ReadMilliAmpHours(file: CapacityFile): (r: Reading)
    ensures file.Present? <==> r.Value?
    ensures file.Present? ==> r.milliAmpHours * 1000.0 == file.microAmpHours
    ensures file.Missing? <==> r.NotFound?
  {
    match file
    case Present(x) => Value(x / 1000.0)
    case Missing => NotFound
    case Unreadable => Failed(OsError)
    case Malformed => Failed(ValueError)
  }

  /** `calculate_health`: the design file is read first, then the current one;
      a missing file at either step gives the fallback, any other failure
      propagates, and a design capacity of zero raises on the division. */
  function CalculateHealth(design: CapacityFile, current: CapacityFile): (h: Outcome)
    // Both files present: the percentage is the plain ratio; the two /1000 scalings cancel.
    ensures design.Present? && current.Present? && design.microAmpHours != 0.0 ==>
              h == Ok(current.microAmpHours / design.microAmpHours * 100.0)
    // A missing file gives exactly the fallback, unless the design read failed first.
    ensures design.Missing? || (design.Present? && current.Missing?) ==> h == Ok(FallbackPercent)
    // The calculation raises exactly when a read fails otherwise or the design capacity is zero.
    ensures h.Raised? <==>
              (design.Unreadable? || design.Malformed?) ||
              (design.Present? && (current.Unreadable? || current.Malformed? ||
                                   (current.Present? && design.microAmpHours == 0.0)))
    ensures h.Raised? && design.Present? && current.Present? ==> h.error == ZeroDivisionError
  {
    match ReadMilliAmpHours(design)
    case NotFound => Ok(FallbackPercent)
    case Failed(e) => Raised(e)
    case Value(d) =>
      match ReadMilliAmpHours(current)
      case NotFound => Ok(FallbackPercent)
      case Failed(e) => Raised(e)
      case Value(c) =>
        if d == 0.0 then Raised(ZeroDivisionError)
        else
          ScalingCancels(current.microAmpHours, design.microAmpHours);
          Ok(c / d * 100.0)
  }

  /** The `/1000` conversion to milliampere-hours cancels out of the ratio. */
  lemma ScalingCancels(c: real, d: real)
    requires d != 0.0
    ensures (c / 1000.0) / (d / 1000.0) * 100.0 == c / d * 100.0
  {
    assert (c / 1000.0) / (d / 1000.0) == c / d by {
      assert (c / d) * (d / 1000.0) == c / 1000.0;
    }
  }

  /** No clamping: a measured health is non-negative, and it lies above, at or
      below 100% exactly as the current capacity lies above, at or below the
      design capacity. */
  lemma MeasuredHealthNotClamped(design: real, current: real)
    requires 0.0 < design && 0.0 <= current
    ensures CalculateHealth(Present(design), Present(current)).Ok?
    ensures var p := CalculateHealth(Present(design), Present(current)).percent;
            0.0 <= p && (p > 100.0 <==> current > design) && (p == 100.0 <==> current == design)
  {
    var p := current / design * 100.0;
    assert p * design == current * 100.0;
  }

  /** A larger current capacity never yields a lower measured health. */
  lemma HealthMonotone(design: real, c1: real, c2: real)
    requires 0.0 < design && c1 <= c2
    ensures CalculateHealth(Present(design), Present(c1)).percent
            <= CalculateHealth(Present(design), Present(c2)).percent
  {
    assert c1 / design <= c2 / design by {
      assert c1 / design * design == c1 && c2 / design * design == c2;
    }
  }

  /** The result carries no mark of being a fallback: a missing file and a
      measurement whose current capacity equals the design capacity give the
      same value. */
  lemma FallbackIndistinguishable(design: real, current: CapacityFile)
    requires 0.0 < design
    ensures CalculateHealth(Missing, current) == CalculateHealth(Present(design), Present(design))
    ensures CalculateHealth(Present(design), Missing) == CalculateHealth(Present(design), Present(design))
  {
    MeasuredHealthNotClamped(design, design);
  }

  /** Whether reading a file fails in a way the comment at the fallback calls
      "not readable": it does not exist, or the process may not read it. */
  predicate NotReadable(file: CapacityFile) {
    file.Missing? || file.Unreadable?
  }

  /** As written, a capacity file that exists but may not be read (the no-root
      case the fallback's comment names) is not caught: the OSError escapes
      instead of the 100% fallback. */
  lemma UnreadableFileRaises(current: CapacityFile, design: real)
    ensures CalculateHealth(Unreadable, current) == Raised(OsError)
    ensures CalculateHealth(Present(design), Unreadable) == Raised(OsError)
  {
  }

  /** `calculate_health` with the fallback its comment describes: any file that
      cannot be read gives 100%, not only a missing one. */
  function CalculateHealthIntended(design: CapacityFile, current: CapacityFile): (h: Outcome)
    ensures NotReadable(design) || (design.Present? && NotReadable(current)) ==> h == Ok(FallbackPercent)
    ensures h.Raised? ==> h.error != OsError
    ensures !(design.Unreadable? || (design.Present? && current.Unreadable?)) ==> h == CalculateHealth(design, current)
  {
    if design.Unreadable? || (design.Present? && current.Unreadable?) then Ok(FallbackPercent)
    else CalculateHealth(design, current)
  }
}
