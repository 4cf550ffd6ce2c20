/**
 * The operator's simulated clock: an optional `simulated_date` session value,
 * kept in the `Y-m-d` text form. The real date is a parameter wherever it is
 * read.
 */
module DateSimulation {
  import opened Wrappers
  import opened Text
  import opened Calendar

  datatype DateError =
    | DateRequired   // the `required` rule: missing, empty or blank
    | NotYmd         // the `date_format:Y-m-d` rule

  class DateSimulator {
    /** The `simulated_date` session entry, absent when no date is simulated. */
    var simulatedDate: Option<string>

    /** A stored override is always well-formed `Y-m-d` text. */
    ghost predicate Valid()
      reads this
    {
      simulatedDate.Some? ==> ParseYmd(simulatedDate.value).Some?
    }

    constructor ()
      ensures Valid() && simulatedDate == None
    {
      simulatedDate := None;
    }

    /** The simulated date if one is set, else the real date. */
    function GetCurrent(today: CalendarDate): (date: string)
      reads this
      requires Valid()
      ensures ParseYmd(date).Some?
      ensures simulatedDate.Some? ==> date == simulatedDate.value
      ensures simulatedDate.None? ==> ParseYmd(date) == Some(today)
    {
      match simulatedDate
      case Some(s) => s
      case None => FormatThenParse(today); FormatYmd(today)
    }

    /** Validate `input` and store it as the override; invalid input leaves the session as it was. */
    method SetDate(input: Option<string>) returns (r: Result<string, DateError>)
      requires Valid()
      modifies this
      ensures Valid()
      ensures (input.None? || Trim(input.value) == []) <==> r == Failure(DateRequired)
      ensures r == Failure(NotYmd) <==> (input.Some? && Trim(input.value) != [] && ParseYmd(input.value).None?)
      ensures r.Success? <==> (input.Some? && ParseYmd(input.value).Some?)
      ensures r.Failure? ==> simulatedDate == old(simulatedDate)
      ensures r.Success? ==> r.value == input.value && simulatedDate == Some(input.value)
    {
      if input.None? || Trim(input.value) == [] {
        if input.Some? {
          BlankTextIsNotParsed(input.value);
        }
        return Failure(DateRequired);
      }
      var parsed := ParseYmd(input.value);
      if parsed.None? {
        return Failure(NotYmd);
      }
      ParsedTextIsNotBlank(input.value);
      var date := FormatYmd(parsed.value);
      ParseThenFormat(input.value);
      FormatThenParse(parsed.value);
      simulatedDate := Some(date);
      r := Success(date);
    }

    /** Forget the override; the reported date is then the real date. */
    method ResetDate(today: CalendarDate) returns (date: string)
      requires Valid()
      modifies this
      ensures Valid() && simulatedDate == None
      ensures date == GetCurrent(today) && ParseYmd(date) == Some(today)
    {
      simulatedDate := None;
      date := FormatYmd(today);
      FormatThenParse(today);
    }
  }

  /** A client of the simulator: setting a date twice is setting it once, and reset returns to the real date. */
  method SimulatorScenario(today: CalendarDate, d: string)
    requires ParseYmd(d).Some?
  {
    ParsedTextIsNotBlank(d);
    var clock := new DateSimulator();
    var first := clock.SetDate(Some(d));
    assert first == Success(d) && clock.GetCurrent(today) == d;
    var second := clock.SetDate(Some(d));
    assert second == first && clock.simulatedDate == Some(d);
    var back := clock.ResetDate(today);
    assert ParseYmd(clock.GetCurrent(today)) == Some(today);
  }
}
