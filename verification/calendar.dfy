/** The login calendar: the grid of day cells for one month and the
    previous/next month buttons. The weekday of the 1st and the number of days
    in the month come from the browser's Date object and are parameters here. */
module Calendar {
  import opened DateKeys

  /** An entry of `daysArray`: a blank padding slot or a day number. */
  datatype DaySlot = Blank | Day(n: nat)

  /** A rendered `calendar-day` cell: empty, or a day number that carries the
      `marked` class when that day is in the login log. */
  datatype Cell = EmptyCell | DayCell(day: nat, marked: bool)

  /** `firstDay` blanks followed by the day numbers 1..daysInMonth. */
  function DaysArray(firstDay: nat, daysInMonth: nat): (slots: seq<DaySlot>)
    ensures |slots| == firstDay + daysInMonth
    ensures forall i :: 0 <= i < firstDay ==> slots[i] == Blank
    ensures forall i :: firstDay <= i < |slots| ==> slots[i] == Day(i - firstDay + 1)
  {
    seq(firstDay, _ => Blank) + seq(daysInMonth, i requires 0 <= i => Day(i + 1))
  }

  /** Each day of the month has exactly one slot, at index firstDay + day - 1. */
  lemma DaySlotPosition(firstDay: nat, daysInMonth: nat, k: nat, d: nat)
    requires k < firstDay + daysInMonth
    ensures DaysArray(firstDay, daysInMonth)[k] == Day(d) <==>
      1 <= d <= daysInMonth && k == firstDay + d - 1
  {
  }

  /** Builds the cells of the month's grid in order, one per slot of DaysArray. */
  method RenderCalendar(month: nat, year: int, firstDay: nat, daysInMonth: nat, loginDates: seq<string>)
    returns (cells: seq<Cell>)
    ensures |cells| == firstDay + daysInMonth
    ensures forall i :: 0 <= i < firstDay ==> cells[i] == EmptyCell
    ensures forall d :: 1 <= d <= daysInMonth ==>
      cells[firstDay + d - 1] == DayCell(d, DateKey(CalendarDate(year, month, d)) in loginDates)
  {
    var daysArray := DaysArray(firstDay, daysInMonth);
    cells := [];
    var i := 0;
    while i < |daysArray|
      invariant 0 <= i <= |daysArray|
      invariant |cells| == i
      invariant forall k :: 0 <= k < i && k < firstDay ==> cells[k] == EmptyCell
      invariant forall d :: 1 <= d <= daysInMonth && firstDay + d - 1 < i ==>
        cells[firstDay + d - 1] == DayCell(d, DateKey(CalendarDate(year, month, d)) in loginDates)
    {
      var cell;
      match daysArray[i] {
        case Blank =>
          cell := EmptyCell;
        case Day(day) =>
          var dateKey := DateKey(CalendarDate(year, month, day));
          cell := DayCell(day, dateKey in loginDates);
      }
      cells := cells + [cell];
      i := i + 1;
    }
  }

  /** The month shown, with the 0-based month the way Date.getMonth gives it. */
  datatype MonthYear = MonthYear(month: nat, year: int)

  predicate ValidMonth(c: MonthYear) {
    c.month < 12
  }

  /** Months counted from January of year 0; consecutive months differ by one. */
  function MonthIndex(c: MonthYear): int {
    c.year * 12 + c.month
  }

  /** The previous-month button: the month wraps from January to December of
      the year before. */
  function PrevMonth(c: MonthYear): (r: MonthYear)
    requires ValidMonth(c)
    ensures ValidMonth(r)
    ensures MonthIndex(r) == MonthIndex(c) - 1
    ensures r.year == (if c.month == 0 then c.year - 1 else c.year)
  {
    var month := (c.month - 1 + 12) % 12;
    MonthYear(month, if month == 11 then c.year - 1 else c.year)
  }

  /** The next-month button: the month wraps from December to January of the
      year after. */
  function NextMonth(c: MonthYear): (r: MonthYear)
    requires ValidMonth(c)
    ensures ValidMonth(r)
    ensures MonthIndex(r) == MonthIndex(c) + 1
    ensures r.year == (if c.month == 11 then c.year + 1 else c.year)
  {
    var month := (c.month + 1) % 12;
    MonthYear(month, if month == 0 then c.year + 1 else c.year)
  }

  /** A valid month is determined by its index. */
  lemma MonthIndexInjective(a: MonthYear, b: MonthYear)
    requires ValidMonth(a) && ValidMonth(b)
    ensures MonthIndex(a) == MonthIndex(b) ==> a == b
  {
    if a.year < b.year {
      assert MonthIndex(a) < a.year * 12 + 12 <= MonthIndex(b);
    } else if b.year < a.year {
      assert MonthIndex(b) < b.year * 12 + 12 <= MonthIndex(a);
    }
  }

  /** Next undoes Prev and Prev undoes Next. */
  lemma PrevNextInverse(c: MonthYear)
    requires ValidMonth(c)
    ensures NextMonth(PrevMonth(c)) == c
    ensures PrevMonth(NextMonth(c)) == c
  {
    MonthIndexInjective(NextMonth(PrevMonth(c)), c);
    MonthIndexInjective(PrevMonth(NextMonth(c)), c);
  }

  /** Pressing "next" n times. */
  function NextMonths(c: MonthYear, n: nat): (r: MonthYear)
    requires ValidMonth(c)
    ensures ValidMonth(r)
    decreases n
  {
    if n == 0 then c else NextMonths(NextMonth(c), n - 1)
  }

  /** Twelve presses of "next" land on the same month one year later; in
      general n presses advance the month index by n. */
  lemma {:induction false} NextMonthsIndex(c: MonthYear, n: nat)
    requires ValidMonth(c)
    ensures MonthIndex(NextMonths(c, n)) == MonthIndex(c) + n
    ensures n == 12 ==> NextMonths(c, n) == MonthYear(c.month, c.year + 1)
    decreases n
  {
    if n > 0 {
      NextMonthsIndex(NextMonth(c), n - 1);
    }
    if n == 12 {
      MonthIndexInjective(NextMonths(c, n), MonthYear(c.month, c.year + 1));
    }
  }

  /** The globals `currentMonth` and `currentYear` and their two buttons. */
  class MonthNavigator {
    var currentMonth: nat
    var currentYear: int

    ghost predicate Valid()
      reads this
    {
      currentMonth < 12
    }

    function Current(): MonthYear
      reads this
    {
      MonthYear(currentMonth, currentYear)
    }

    /** Starts at today's month and year. */
    constructor (today: CalendarDate)
      requires today.month < 12
      ensures Valid() && currentMonth == today.month && currentYear == today.year
    {
      currentMonth := today.month;
      currentYear := today.year;
    }

    method OnPrevMonth()
      requires Valid()
      modifies this
      ensures Valid() && Current() == PrevMonth(old(Current()))
    {
      currentMonth := (currentMonth - 1 + 12) % 12;
      if currentMonth == 11 {
        currentYear := currentYear - 1;
      }
    }

    method OnNextMonth()
      requires Valid()
      modifies this
      ensures Valid() && Current() == NextMonth(old(Current()))
    {
      currentMonth := (currentMonth + 1) % 12;
      if currentMonth == 0 {
        currentYear := currentYear + 1;
      }
    }
  }
}
