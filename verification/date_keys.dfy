/** Date keys of the form `Y-M-D`: the year, the 1-based month and the day of
    the month in decimal, joined by '-' with no zero padding. The login log
    stores these strings and the calendar looks them up. */
module DateKeys {

  datatype Option<T> = None | Some(value: T)

  /** A calendar date as the browser's Date object reports it: `month` is
      0-based (getMonth), `day` is the day of the month (getDate). */
  datatype CalendarDate = CalendarDate(year: int, month: nat, day: nat)

  predicate IsDigit(c: char) {
    '0' <= c <= '9'
  }

  predicate AllDigits(s: string) {
    forall i :: 0 <= i < |s| ==> IsDigit(s[i])
  }

  function DigitChar(d: nat): (c: char)
    requires d < 10
    ensures IsDigit(c) && DigitValue(c) == d
  {
    (('0' as int) + d) as char
  }

  function DigitValue(c: char): nat
    requires IsDigit(c)
  {
    (c as int) - ('0' as int)
  }

  /** Decimal rendering of a natural number, as a JS template literal prints it. */
  function NatToString(n: nat): (s: string)
    ensures |s| >= 1 && AllDigits(s)
    ensures s[0] == '0' ==> n == 0
    decreases n
  {
    if n < 10 then [DigitChar(n)] else NatToString(n / 10) + [DigitChar(n % 10)]
  }

  /** Decimal rendering of an integer: a leading '-' for negative values. */
  function IntToString(i: int): (s: string)
    ensures |s| >= 1 && (s[0] == '-' <==> i < 0)
  {
    if i < 0 then "-" + NatToString(-i) else NatToString(i)
  }

  /** The value of a string of decimal digits. */
  function DigitsValue(s: string): nat
    requires AllDigits(s)
  {
    if s == [] then 0 else DigitsValue(s[..|s| - 1]) * 10 + DigitValue(s[|s| - 1])
  }

  lemma {:induction false} NatToStringRoundTrip(n: nat)
    ensures DigitsValue(NatToString(n)) == n
    decreases n
  {
    if n >= 10 {
      NatToStringRoundTrip(n / 10);
      var s := NatToString(n);
      assert s[..|s| - 1] == NatToString(n / 10);
    }
  }

  /** Parsing a printed number gives the number back. */
  lemma ParseNatToString(n: nat)
    ensures ParseNat(NatToString(n)) == Some(n)
  {
    NatToStringRoundTrip(n);
  }

  /** The key script.js builds for a date: year, then month + 1, then day,
      in unpadded decimal and separated by '-'; a negative year adds a
      leading '-' before its digits. */
  function DateKey(d: CalendarDate): (k: string)
    ensures d.year >= 0 ==>
      SplitOn(k, '-') == [NatToString(d.year), NatToString(d.month + 1), NatToString(d.day)]
    ensures d.year < 0 ==>
      k != [] && k[0] == '-' &&
      SplitOn(k[1..], '-') == [NatToString(-d.year), NatToString(d.month + 1), NatToString(d.day)]
  {
    KeyFields(d);
    IntToString(d.year) + KeyTail(d)
  }

  lemma KeyFields(d: CalendarDate)
    ensures var k := IntToString(d.year) + KeyTail(d);
      var fields := [NatToString(if d.year < 0 then -d.year else d.year), NatToString(d.month + 1), NatToString(d.day)];
      if d.year >= 0 then SplitOn(k, '-') == fields
      else k != [] && k[0] == '-' && SplitOn(k[1..], '-') == fields
  {
    var y: nat := if d.year < 0 then -d.year else d.year;
    var ys, tail := NatToString(y), KeyTail(d);
    SplitKeyBody(ys, NatToString(d.month + 1), NatToString(d.day));
    if d.year < 0 {
      DropSign(ys, tail);
    }
  }

  /** The part of the key after the year: `-M-D`. */
  function KeyTail(d: CalendarDate): string {
    "-" + (NatToString(d.month + 1) + ("-" + NatToString(d.day)))
  }

  /** Splits a string at every occurrence of `sep`, keeping empty pieces. */
  function SplitOn(s: string, sep: char): (parts: seq<string>)
    ensures |parts| >= 1
  {
    if s == [] then [""]
    else if s[0] == sep then [""] + SplitOn(s[1..], sep)
    else
      var rest := SplitOn(s[1..], sep);
      [[s[0]] + rest[0]] + rest[1..]
  }

  lemma {:induction false} SplitOnPlain(u: string, sep: char)
    requires forall i :: 0 <= i < |u| ==> u[i] != sep
    ensures SplitOn(u, sep) == [u]
  {
    if u != [] {
      SplitOnPlain(u[1..], sep);
      assert [u[0]] + u[1..] == u;
    }
  }

  lemma {:induction false} SplitOnFirst(u: string, sep: char, v: string)
    requires forall i :: 0 <= i < |u| ==> u[i] != sep
    ensures SplitOn(u + ([sep] + v), sep) == [u] + SplitOn(v, sep)
  {
    if u == [] {
      assert u + ([sep] + v) == [sep] + v;
      assert ([sep] + v)[1..] == v;
    } else {
      SplitOnFirst(u[1..], sep, v);
      assert (u + ([sep] + v))[1..] == u[1..] + ([sep] + v);
      assert [u[0]] + u[1..] == u;
    }
  }

  function ParseNat(s: string): Option<nat> {
    if s != [] && AllDigits(s) then Some(DigitsValue(s)) else None
  }

  /** Reads a key back into a date; the inverse of DateKey. */
  function ParseDateKey(key: string): Option<CalendarDate> {
    if |key| > 0 && key[0] == '-' then ParseFields(key[1..], true) else ParseFields(key, false)
  }

  /** Reads the `Y-M-D` fields after an optional sign. */
  function ParseFields(body: string, negative: bool): Option<CalendarDate> {
    var parts := SplitOn(body, '-');
    if |parts| != 3 then None
    else
      match (ParseNat(parts[0]), ParseNat(parts[1]), ParseNat(parts[2]))
      case (Some(y), Some(m), Some(d)) =>
        if m == 0 then None
        else
          var year: int := if negative then -(y as int) else y;
          Some(CalendarDate(year, m - 1, d))
      case _ => None
  }

  lemma NoSeparator(s: string)
    requires AllDigits(s)
    ensures forall i :: 0 <= i < |s| ==> s[i] != '-'
  {
  }

  /** The three decimal fields of a key are what splitting at '-' recovers. */
  lemma {:induction false} SplitKeyBody(ys: string, ms: string, ds: string)
    requires AllDigits(ys) && AllDigits(ms) && AllDigits(ds)
    ensures SplitOn(ys + ("-" + (ms + ("-" + ds))), '-') == [ys, ms, ds]
  {
    NoSeparator(ys);
    NoSeparator(ms);
    NoSeparator(ds);
    SplitOnFirst(ys, '-', ms + ("-" + ds));
    SplitOnFirst(ms, '-', ds);
    SplitOnPlain(ds, '-');
  }

  /** The fields DateKey writes after the sign parse back to the date. */
  lemma ParseFieldsOfKey(d: CalendarDate, y: nat, negative: bool)
    requires d.year == if negative then -(y as int) else y
    ensures ParseFields(NatToString(y) + KeyTail(d), negative) == Some(d)
  {
    SplitKeyBody(NatToString(y), NatToString(d.month + 1), NatToString(d.day));
    ParseNatToString(y);
    ParseNatToString(d.month + 1);
    ParseNatToString(d.day);
  }

  lemma DropSign(p: string, t: string)
    ensures ("-" + p + t)[0] == '-' && ("-" + p + t)[1..] == p + t
  {
  }

  /** Parsing the digits, separators and sign that DateKey writes gives the date back. */
  lemma DateKeyRoundTrip(d: CalendarDate)
    ensures ParseDateKey(DateKey(d)) == Some(d)
  {
    var y: nat := if d.year < 0 then -d.year else d.year;
    var ys, tail := NatToString(y), KeyTail(d);
    ParseFieldsOfKey(d, y, d.year < 0);
    if d.year < 0 {
      assert DateKey(d) == "-" + ys + tail;
      DropSign(ys, tail);
    } else {
      assert DateKey(d) == ys + tail;
      assert (ys + tail)[0] == ys[0];
    }
  }

  /** Two different dates never share a key, although no field is padded. */
  lemma DateKeyInjective(a: CalendarDate, b: CalendarDate)
    ensures DateKey(a) == DateKey(b) ==> a == b
  {
    DateKeyRoundTrip(a);
    DateKeyRoundTrip(b);
  }
}
