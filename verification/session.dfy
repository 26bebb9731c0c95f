/** One typing test: Enter starts a test (clearing the counters and recording
    the login day) and Enter again ends it (storing the result on the
    leaderboard); every input event recounts the words and the wrong words. */
module TypingSession {
  import opened DateKeys
  import opened WordCount
  import opened LoginDays
  import opened Leaderboard

  /** The module-level flags and counters of the typing test. */
  class Session {
    var started: bool
    var errorCount: nat
    var totalTyped: nat

    /** The values the globals are declared with. */
    constructor ()
      ensures !started && errorCount == 0 && totalTyped == 0
    {
      started := false;
      errorCount := 0;
      totalTyped := 0;
    }

    /** The input handler: `text` is the text area's value and `dictionary`
        the word list. Returns the number of words, which the speed uses. */
    method OnInput(text: string, dictionary: seq<string>) returns (totalWords: nat)
      modifies this
      ensures totalWords == |Words(text)| && totalWords >= 1
      ensures totalTyped == old(totalTyped) + 1
      ensures errorCount == |WrongWords(Words(text), dictionary)| == ErrorCount(text, dictionary)
      ensures errorCount <= totalWords
      ensures started == old(started)
    {
      var words := Words(text);
      totalWords := |words|;
      totalTyped := totalTyped + 1;
      var wrongWords := WrongWords(words, dictionary);
      errorCount := |wrongWords|;
    }

    /** Starts a test: sets the flag, clears both counters and records today
        in the login log. */
    method StartTyping(log: LoginLog, today: CalendarDate, yesterday: CalendarDate)
      modifies this, log
      ensures started && errorCount == 0 && totalTyped == 0
      ensures log.loginDates == WithDay(old(log.loginDates), DateKey(today))
      ensures NoDuplicates(old(log.loginDates)) ==> NoDuplicates(log.loginDates)
      ensures DateKey(today) !in old(log.loginDates) ==>
        log.missedAlert == MissedAlert(log.loginDates, DateKey(yesterday))
      ensures DateKey(today) in old(log.loginDates) ==> log.missedAlert == old(log.missedAlert)
    {
      started := true;
      errorCount := 0;
      totalTyped := 0;
      log.RecordLoginDay(today, yesterday);
    }

    /** Ends a test and stores its result; `date`, `speed` and `accuracy` are
        the values read back from the page. */
    method EndTyping(board: Board, date: string, speed: int, accuracy: int)
      modifies this, board
      ensures !started && errorCount == old(errorCount) && totalTyped == old(totalTyped)
      ensures board.entries == BoardAfter(old(board.entries), Entry(date, speed, accuracy))
      ensures |board.entries| <= TopCount && SortedByWpm(board.entries)
    {
      started := false;
      board.UpdateLeaderboard(date, speed, accuracy);
    }

    /** The keydown handler: Enter starts a test when none is running and
        ends the running one otherwise; any other key does nothing. */
    method OnKeyDown(key: string, log: LoginLog, board: Board,
                     today: CalendarDate, yesterday: CalendarDate,
                     date: string, speed: int, accuracy: int)
      modifies this, log, board
      ensures key != "Enter" ==>
        started == old(started) && errorCount == old(errorCount) && totalTyped == old(totalTyped) &&
        log.loginDates == old(log.loginDates) && log.missedAlert == old(log.missedAlert) &&
        board.entries == old(board.entries)
      ensures key == "Enter" ==> started == !old(started)
      ensures key == "Enter" && !old(started) ==>
        errorCount == 0 && totalTyped == 0 &&
        log.loginDates == WithDay(old(log.loginDates), DateKey(today)) &&
        board.entries == old(board.entries)
      ensures key == "Enter" && !old(started) && DateKey(today) !in old(log.loginDates) ==>
        log.missedAlert == MissedAlert(log.loginDates, DateKey(yesterday))
      ensures key == "Enter" && !old(started) && DateKey(today) in old(log.loginDates) ==>
        log.missedAlert == old(log.missedAlert)
      ensures key == "Enter" && old(started) ==>
        errorCount == old(errorCount) && totalTyped == old(totalTyped) &&
        board.entries == BoardAfter(old(board.entries), Entry(date, speed, accuracy)) &&
        log.loginDates == old(log.loginDates) && log.missedAlert == old(log.missedAlert)
    {
      if key == "Enter" && !started {
        StartTyping(log, today, yesterday);
      } else if key == "Enter" && started {
        EndTyping(board, date, speed, accuracy);
      }
    }
  }
}
