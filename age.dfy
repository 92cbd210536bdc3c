/**
  calculateAge (redis-backend/server.js), with JavaScript's Date parsing and the
  clock taken out: the birthdate arrives already parsed, or as None when
  `new Date(birthdate)` is an invalid date, and "today" is a parameter.
*/
module Age {
  import opened Wrappers

  /** A date as getFullYear(), getMonth() (0 to 11) and getDate() report it. */
  datatype Date = Date(year: int, month: int, day: int)

  /** a comes strictly before b in the calendar. */
  predicate Before(a: Date, b: Date) {
    || a.year < b.year
    || (a.year == b.year && (a.month < b.month || (a.month == b.month && a.day < b.day)))
  }

  /** The k-th anniversary of b. */
  function Anniversary(b: Date, k: int): Date {
    Date(b.year + k, b.month, b.day)
  }

  /** Yields null (None) for an invalid birthdate. */
  function CalculateAge(today: Date, birth: Option<Date>): Option<int> {
    match birth
    case None => None
    case Some(b) =>
      var age := today.year - b.year;
      var monthDifference := today.month - b.month;
      if monthDifference < 0 || (monthDifference == 0 && today.day < b.day) then Some(age - 1)
      else Some(age)
  }

  /** The age is the number of anniversaries reached by today: the age-th has come, the
      next has not. */
  lemma AgeIsCompletedYears(today: Date, birth: Date)
    ensures CalculateAge(today, Some(birth)).Some?
    ensures !Before(today, Anniversary(birth, CalculateAge(today, Some(birth)).value))
    ensures Before(today, Anniversary(birth, CalculateAge(today, Some(birth)).value + 1))
  {
  }

  /** Only one number of years fits that description. */
  lemma CompletedYearsUnique(today: Date, birth: Date, k: int)
    requires !Before(today, Anniversary(birth, k)) && Before(today, Anniversary(birth, k + 1))
    ensures CalculateAge(today, Some(birth)) == Some(k)
  {
  }
}
