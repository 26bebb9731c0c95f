/** The login-day log: the list of date keys on which a typing test was
    started, and the "missed a day" alert derived from it. */
module LoginDays {
  import opened DateKeys

  /** The alert text shown when yesterday has no entry in the log. */
  const MissedDayMessage: string := "\U{1F514} You missed a day!"

  predicate NoDuplicates(dates: seq<string>) {
    forall i, j :: 0 <= i < j < |dates| ==> dates[i] != dates[j]
  }

  /** The log after recording `key`: the key is appended only when it is not
      already there. */
  function WithDay(dates: seq<string>, key: string): (r: seq<string>)
    ensures key in r
    ensures forall k :: k in r <==> k in dates || k == key
    ensures dates <= r && |r| <= |dates| + 1
    ensures NoDuplicates(dates) ==> NoDuplicates(r)
  {
    if key in dates then dates else dates + [key]
  }

  /** Recording the same day twice is the same as recording it once. */
  lemma WithDayIdempotent(dates: seq<string>, key: string)
    ensures WithDay(WithDay(dates, key), key) == WithDay(dates, key)
  {
  }

  /** A log built by recording days one after another never holds a key twice. */
  function RecordAll(dates: seq<string>, keys: seq<string>): seq<string>
    decreases keys
  {
    if keys == [] then dates else RecordAll(WithDay(dates, keys[0]), keys[1..])
  }

  lemma {:induction false} RecordAllNoDuplicates(dates: seq<string>, keys: seq<string>)
    requires NoDuplicates(dates)
    ensures NoDuplicates(RecordAll(dates, keys))
    ensures forall k :: k in RecordAll(dates, keys) <==> k in dates || k in keys
    decreases keys
  {
    if keys != [] {
      RecordAllNoDuplicates(WithDay(dates, keys[0]), keys[1..]);
      forall k | k in keys ensures k == keys[0] || k in keys[1..] {
        var i :| 0 <= i < |keys| && keys[i] == k;
        if i > 0 { assert keys[1..][i - 1] == k; }
      }
    }
  }

  /** The alert text for a log, given yesterday's key. */
  function MissedAlert(dates: seq<string>, yesterdayKey: string): (text: string)
    ensures text == MissedDayMessage <==> yesterdayKey !in dates
    ensures text == "" <==> yesterdayKey in dates
  {
    if yesterdayKey !in dates then MissedDayMessage else ""
  }

  /** The module-level `loginDates` list and the text of the missed-day alert. */
  class LoginLog {
    var loginDates: seq<string>
    var missedAlert: string

    /** Page load: `stored` is the list read back from browser storage (empty
        when absent), and the missed-day check runs once for `yesterday`. */
    constructor (stored: seq<string>, yesterday: CalendarDate)
      ensures loginDates == stored
      ensures missedAlert == MissedAlert(stored, DateKey(yesterday))
      ensures missedAlert != "" <==> DateKey(yesterday) !in stored
    {
      loginDates := stored;
      missedAlert := if DateKey(yesterday) !in stored then MissedDayMessage else "";
    }

    method CheckMissedDays(yesterday: CalendarDate)
      modifies this`missedAlert
      ensures missedAlert == MissedAlert(loginDates, DateKey(yesterday))
      ensures missedAlert != "" <==> DateKey(yesterday) !in loginDates
    {
      var yesterdayKey := DateKey(yesterday);
      if yesterdayKey !in loginDates {
        missedAlert := MissedDayMessage;
      } else {
        missedAlert := "";
      }
    }

    /** Records today's key; on a new day it also refreshes the missed-day alert. */
    method RecordLoginDay(today: CalendarDate, yesterday: CalendarDate)
      modifies this
      ensures DateKey(today) in loginDates
      ensures loginDates == WithDay(old(loginDates), DateKey(today))
      ensures DateKey(today) in old(loginDates) ==>
        loginDates == old(loginDates) && missedAlert == old(missedAlert)
      ensures DateKey(today) !in old(loginDates) ==>
        loginDates == old(loginDates) + [DateKey(today)] &&
        missedAlert == MissedAlert(loginDates, DateKey(yesterday))
    {
      var todayKey := DateKey(today);
      if todayKey !in loginDates {
        loginDates := loginDates + [todayKey];
        CheckMissedDays(yesterday);
      }
    }
  }
}
