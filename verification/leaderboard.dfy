/** The leaderboard: at the end of a test the entry {date, wpm, accuracy} is
    pushed onto the stored list, the list is sorted by wpm from fastest to
    slowest with a stable sort, and the first five entries are kept. */
module Leaderboard {

  datatype Entry = Entry(date: string, wpm: int, accuracy: int)

  /** How many entries the board keeps. */
  const TopCount: nat := 5

  predicate SortedByWpm(s: seq<Entry>) {
    forall i, j :: 0 <= i < j < |s| ==> s[i].wpm >= s[j].wpm
  }

  /** The entries of `s` whose wpm is `w`, in their order in `s`. A sort is
      stable exactly when it leaves each of these subsequences as it was. */
  function WithWpm(s: seq<Entry>, w: int): (r: seq<Entry>)
    ensures |r| <= |s|
  {
    if s == [] then [] else WithWpm(s[..|s| - 1], w) + KeepIf(s[|s| - 1], w)
  }

  /** `[x]` when x has wpm `w`, otherwise nothing. */
  function KeepIf(x: Entry, w: int): seq<Entry> {
    if x.wpm == w then [x] else []
  }

  /** Inserts `e` after every entry whose wpm is at least its own: where a
      stable descending sort puts the entry that was pushed last. */
  function Insert(s: seq<Entry>, e: Entry): (r: seq<Entry>)
    ensures |r| == |s| + 1
  {
    if s == [] || s[|s| - 1].wpm >= e.wpm then s + [e]
    else
      assert s == s[..|s| - 1] + [s[|s| - 1]];
      Insert(s[..|s| - 1], e) + [s[|s| - 1]]
  }

  /** Insertion adds exactly the one entry. */
  lemma {:induction false} InsertPermutes(s: seq<Entry>, e: Entry)
    ensures multiset(Insert(s, e)) == multiset(s) + multiset{e}
  {
    if s != [] && s[|s| - 1].wpm < e.wpm {
      var init, last := s[..|s| - 1], s[|s| - 1];
      InsertPermutes(init, e);
      assert s == init + [last];
    }
  }

  /** Insertion keeps every other wpm's subsequence and puts `e` after the
      entries that share its wpm. */
  lemma {:induction false} InsertStable(s: seq<Entry>, e: Entry, w: int)
    ensures WithWpm(Insert(s, e), w) == WithWpm(s, w) + KeepIf(e, w)
  {
    if s == [] || s[|s| - 1].wpm >= e.wpm {
      var t := s + [e];
      assert Insert(s, e) == t;
      assert t[..|t| - 1] == s && t[|t| - 1] == e;
      assert WithWpm(t, w) == WithWpm(s, w) + KeepIf(e, w);
    } else {
      var init, last := s[..|s| - 1], s[|s| - 1];
      var r := Insert(init, e);
      var t := r + [last];
      assert Insert(s, e) == t;
      InsertStable(init, e, w);
      assert t[..|t| - 1] == r && t[|t| - 1] == last;
      assert WithWpm(t, w) == WithWpm(init, w) + KeepIf(e, w) + KeepIf(last, w);
      assert KeepIf(e, w) + KeepIf(last, w) == KeepIf(last, w) + KeepIf(e, w);
      assert WithWpm(s, w) == WithWpm(init, w) + KeepIf(last, w);
    }
  }

  lemma {:induction false} InsertSorted(s: seq<Entry>, e: Entry)
    requires SortedByWpm(s)
    ensures SortedByWpm(Insert(s, e))
  {
    if s == [] || s[|s| - 1].wpm >= e.wpm {
      SortedAppend(s, e);
    } else {
      var init, last := s[..|s| - 1], s[|s| - 1];
      var r := Insert(init, e);
      InsertSorted(init, e);
      InsertMembers(init, e);
      forall i | 0 <= i < |r| ensures r[i].wpm >= last.wpm {
        if r[i] != e {
          var j :| 0 <= j < |init| && init[j] == r[i];
          assert s[j] == r[i];
        }
      }
      SortedAppend(r, last);
    }
  }

  /** Every entry of Insert(s, e) is e or an entry of s. */
  lemma {:induction false} InsertMembers(s: seq<Entry>, e: Entry)
    ensures forall i :: 0 <= i < |Insert(s, e)| ==>
      Insert(s, e)[i] == e || exists j :: 0 <= j < |s| && s[j] == Insert(s, e)[i]
  {
    if s != [] && s[|s| - 1].wpm < e.wpm {
      var init, last := s[..|s| - 1], s[|s| - 1];
      InsertMembers(init, e);
      var r := Insert(init, e);
      forall i | 0 <= i < |r| && r[i] != e ensures exists j :: 0 <= j < |s| && s[j] == r[i] {
        var j :| 0 <= j < |init| && init[j] == r[i];
        assert s[j] == r[i];
      }
      assert Insert(s, e) == r + [last];
      assert s[|s| - 1] == last;
    }
  }

  /** Appending an entry no faster than any in a sorted list keeps it sorted. */
  lemma SortedAppend(r: seq<Entry>, x: Entry)
    requires SortedByWpm(r)
    requires forall i :: 0 <= i < |r| ==> r[i].wpm >= x.wpm
    ensures SortedByWpm(r + [x])
  {
  }

  /** The stable descending sort of `s`, as insertion sort computes it. */
  function SortByWpm(s: seq<Entry>): (r: seq<Entry>)
    ensures |r| == |s|
    ensures multiset(r) == multiset(s)
    ensures SortedByWpm(r)
  {
    if s == [] then []
    else
      var sorted := SortByWpm(s[..|s| - 1]);
      assert s == s[..|s| - 1] + [s[|s| - 1]];
      InsertSorted(sorted, s[|s| - 1]);
      InsertPermutes(sorted, s[|s| - 1]);
      Insert(sorted, s[|s| - 1])
  }

  /** Entries with equal wpm keep their relative order. */
  lemma {:induction false} SortStable(s: seq<Entry>, w: int)
    ensures WithWpm(SortByWpm(s), w) == WithWpm(s, w)
  {
    if s != [] {
      SortStable(s[..|s| - 1], w);
      InsertStable(SortByWpm(s[..|s| - 1]), s[|s| - 1], w);
    }
  }

  lemma {:induction false} WithWpmMembers(s: seq<Entry>, w: int)
    ensures forall y :: y in WithWpm(s, w) ==> y in s && y.wpm == w
  {
    if s != [] {
      WithWpmMembers(s[..|s| - 1], w);
      assert forall y :: y in s[..|s| - 1] ==> y in s;
    }
  }

  /** In a sorted list, an entry with the same wpm as some other entry is at
      least as fast as the last one. */
  lemma SlowestLast(b: seq<Entry>, w: int)
    requires SortedByWpm(b) && b != []
    requires WithWpm(b, w) != []
    ensures w >= b[|b| - 1].wpm
  {
    var u := WithWpm(b, w)[0];
    WithWpmMembers(b, w);
    assert u in WithWpm(b, w);
    var j :| 0 <= j < |b| && b[j] == u;
  }

  lemma AppendCancel(p: seq<Entry>, q: seq<Entry>, t: seq<Entry>)
    requires p + t == q + t
    ensures p == q
  {
    assert |p| == |q|;
    forall i | 0 <= i < |p| ensures p[i] == q[i] {
      assert (p + t)[i] == p[i] && (q + t)[i] == q[i];
    }
  }

  lemma AppendOneEqual(p: seq<Entry>, q: seq<Entry>, x: Entry, y: Entry)
    requires p + [x] == q + [y]
    ensures x == y
  {
    assert |p| == |q|;
    assert (p + [x])[|p|] == x && (q + [y])[|q|] == y;
  }

  /** The last entry closes its own wpm's subsequence. */
  lemma EndsFilter(s: seq<Entry>)
    requires s != []
    ensures WithWpm(s, s[|s| - 1].wpm) == WithWpm(s[..|s| - 1], s[|s| - 1].wpm) + [s[|s| - 1]]
  {
  }

  /** Two non-empty sorted lists with the same subsequences for the wpm of
      their last entries end in the same entry. */
  lemma SameLast(a: seq<Entry>, b: seq<Entry>)
    requires SortedByWpm(a) && SortedByWpm(b) && a != [] && b != []
    requires WithWpm(a, a[|a| - 1].wpm) == WithWpm(b, a[|a| - 1].wpm)
    requires WithWpm(a, b[|b| - 1].wpm) == WithWpm(b, b[|b| - 1].wpm)
    ensures a[|a| - 1] == b[|b| - 1]
  {
    var x, y := a[|a| - 1], b[|b| - 1];
    EndsFilter(a);
    EndsFilter(b);
    // The slowest entries of the two lists have the same wpm ...
    SlowestLast(b, x.wpm);
    SlowestLast(a, y.wpm);
    // ... so both lists end in the last entry of that wpm's subsequence.
    var w := x.wpm;
    assert y.wpm == w;
    var p, q := WithWpm(a[..|a| - 1], w), WithWpm(b[..|b| - 1], w);
    assert WithWpm(a, w) == p + [x];
    assert WithWpm(b, w) == q + [y];
    AppendOneEqual(p, q, x, y);
  }

  /** Dropping the same last entry from both lists keeps their subsequences equal. */
  lemma SameInitFilters(a: seq<Entry>, b: seq<Entry>, w: int)
    requires a != [] && b != [] && a[|a| - 1] == b[|b| - 1]
    requires WithWpm(a, w) == WithWpm(b, w)
    ensures WithWpm(a[..|a| - 1], w) == WithWpm(b[..|b| - 1], w)
  {
    AppendCancel(WithWpm(a[..|a| - 1], w), WithWpm(b[..|b| - 1], w), KeepIf(a[|a| - 1], w));
  }

  lemma SameInitLast(a: seq<Entry>, b: seq<Entry>)
    requires a != [] && b != []
    requires a[..|a| - 1] == b[..|b| - 1] && a[|a| - 1] == b[|b| - 1]
    ensures a == b
  {
    assert a == a[..|a| - 1] + [a[|a| - 1]];
    assert b == b[..|b| - 1] + [b[|b| - 1]];
  }

  /** Two sorted lists with the same subsequence for every wpm are equal. */
  lemma {:induction false} SortedStableUnique(a: seq<Entry>, b: seq<Entry>)
    requires SortedByWpm(a) && SortedByWpm(b)
    requires forall w :: WithWpm(a, w) == WithWpm(b, w)
    ensures a == b
    decreases |a|
  {
    if a == [] {
      if b != [] {
        EndsFilter(b);
        assert false;
      }
    } else if b == [] {
      EndsFilter(a);
      assert false;
    } else {
      var a0, b0 := a[..|a| - 1], b[..|b| - 1];
      SameLast(a, b);
      forall w ensures WithWpm(a0, w) == WithWpm(b0, w) {
        SameInitFilters(a, b, w);
      }
      SortedStableUnique(a0, b0);
      SameInitLast(a, b);
    }
  }

  /** Any arrangement that is sorted by wpm and keeps the order of equal-wpm
      entries is SortByWpm's result: the outcome of a stable sort does not
      depend on the algorithm. */
  lemma StableSortIsUnique(s: seq<Entry>, t: seq<Entry>)
    requires SortedByWpm(t)
    requires forall w :: WithWpm(t, w) == WithWpm(s, w)
    ensures t == SortByWpm(s)
  {
    forall w ensures WithWpm(SortByWpm(s), w) == WithWpm(s, w) {
      SortStable(s, w);
    }
    SortedStableUnique(t, SortByWpm(s));
  }

  /** Sorting a list that is already sorted changes nothing. */
  lemma SortSortedIsIdentity(s: seq<Entry>)
    requires SortedByWpm(s)
    ensures SortByWpm(s) == s
  {
    StableSortIsUnique(s, s);
  }

  /** The number of entries of `s` at least as fast as `w`. */
  function RankOf(s: seq<Entry>, w: int): (k: nat)
    ensures k <= |s|
  {
    if s == [] then 0
    else RankOf(s[..|s| - 1], w) + (if s[|s| - 1].wpm >= w then 1 else 0)
  }

  lemma {:induction false} RankOfAllFaster(s: seq<Entry>, w: int)
    requires SortedByWpm(s)
    requires s == [] || s[|s| - 1].wpm >= w
    ensures RankOf(s, w) == |s|
  {
    if s != [] {
      var init := s[..|s| - 1];
      if init != [] {
        assert init[|init| - 1] == s[|s| - 2];
      }
      RankOfAllFaster(init, w);
    }
  }

  /** On a sorted list the entries at least as fast as `w` are exactly the
      first RankOf(s, w). */
  lemma {:induction false} RankOfSplits(s: seq<Entry>, w: int)
    requires SortedByWpm(s)
    ensures forall i :: 0 <= i < RankOf(s, w) ==> s[i].wpm >= w
    ensures forall i :: RankOf(s, w) <= i < |s| ==> s[i].wpm < w
  {
    if s != [] {
      var init, last := s[..|s| - 1], s[|s| - 1];
      if last.wpm >= w {
        RankOfAllFaster(s, w);
      } else {
        RankOfSplits(init, w);
        assert RankOf(s, w) == RankOf(init, w);
      }
    }
  }

  /** On a sorted list the new entry lands right after the RankOf entries that
      are at least as fast, ties included, and before every slower one. */
  lemma InsertPosition(s: seq<Entry>, e: Entry)
    requires SortedByWpm(s)
    ensures var k := RankOf(s, e.wpm); Insert(s, e) == s[..k] + [e] + s[k..]
  {
    var k := RankOf(s, e.wpm);
    RankOfSplits(s, e.wpm);
    assert k == 0 || s[k - 1].wpm >= e.wpm;
    InsertAfterPrefix(s, k, e);
  }

  /** The first `n` entries, or all of them when there are fewer. */
  function Take(s: seq<Entry>, n: nat): (r: seq<Entry>)
    ensures |r| == if |s| < n then |s| else n
  {
    if |s| < n then s else s[..n]
  }

  /** In a sorted list, every entry in the first `n` is at least as fast as
      every entry after them. */
  lemma TakeKeepsFastest(full: seq<Entry>, n: nat)
    requires SortedByWpm(full)
    ensures var kept := Take(full, n);
      forall x, y :: x in kept && y in multiset(full) - multiset(kept) ==> x.wpm >= y.wpm
  {
    var m := |Take(full, n)|;
    assert Take(full, n) == full[..m];
    DroppedSuffix(full, m);
    SortedSplit(full, m);
  }

  /** In a sorted list every entry before index m is at least as fast as every entry from m on. */
  lemma SortedSplit(full: seq<Entry>, m: nat)
    requires SortedByWpm(full) && m <= |full|
    ensures forall x, y :: x in full[..m] && y in multiset(full[m..]) ==> x.wpm >= y.wpm
  {
    forall x, y | x in full[..m] && y in full[m..] ensures x.wpm >= y.wpm {
      var i :| 0 <= i < m && full[..m][i] == x;
      var j :| 0 <= j < |full| - m && full[m..][j] == y;
      assert full[i] == x && full[m + j] == y;
    }
  }

  /** Removing the first m entries' multiset leaves the rest's multiset. */
  lemma DroppedSuffix(full: seq<Entry>, m: nat)
    requires m <= |full|
    ensures multiset(full) - multiset(full[..m]) == multiset(full[m..])
  {
    assert full == full[..m] + full[m..];
  }

  /** The board stored after recording `e` on `board`. */
  function BoardAfter(board: seq<Entry>, e: Entry): (r: seq<Entry>)
    ensures |r| == if |board| + 1 < TopCount then |board| + 1 else TopCount
    ensures SortedByWpm(r)
    ensures multiset(r) <= multiset(board + [e])
    ensures forall x, y :: x in r && y in multiset(board + [e]) - multiset(r) ==> x.wpm >= y.wpm
  {
    var sorted := SortByWpm(board + [e]);
    TakeKeepsFastest(sorted, TopCount);
    assert sorted == Take(sorted, TopCount) + sorted[|Take(sorted, TopCount)|..];
    Take(sorted, TopCount)
  }

  /** Sorting a sorted board with one entry pushed on its end is inserting that entry. */
  lemma SortPushed(board: seq<Entry>, e: Entry)
    requires SortedByWpm(board)
    ensures SortByWpm(board + [e]) == Insert(board, e)
  {
    var t := board + [e];
    assert t[..|t| - 1] == board && t[|t| - 1] == e;
    SortSortedIsIdentity(board);
  }

  lemma TakeAfterInsert(board: seq<Entry>, e: Entry, k: nat)
    requires k <= |board|
    ensures var r := Take(board[..k] + [e] + board[k..], TopCount);
      && (k < TopCount ==> r[k] == e)
      && (k >= TopCount ==> r == board[..TopCount])
  {
    var t := board[..k] + [e] + board[k..];
    assert t[k] == e;
    if k >= TopCount {
      forall m | 0 <= m < TopCount ensures t[m] == board[m] {
        assert t[m] == board[..k][m];
      }
    }
  }

  /** On a stored board, which is always sorted, the update inserts the new
      entry after every entry at least as fast and keeps five: the entry
      survives exactly when fewer than five stored entries are at least as
      fast, and otherwise the board keeps its first five entries. */
  lemma UpdateSortedBoard(board: seq<Entry>, e: Entry)
    requires SortedByWpm(board)
    ensures var k := RankOf(board, e.wpm);
      && BoardAfter(board, e) == Take(board[..k] + [e] + board[k..], TopCount)
      && (k < TopCount ==> BoardAfter(board, e)[k] == e)
      && (k >= TopCount ==> BoardAfter(board, e) == board[..TopCount])
  {
    SortPushed(board, e);
    InsertPosition(board, e);
    TakeAfterInsert(board, e, RankOf(board, e.wpm));
  }

  /** Cutting a sorted list to its first `n` entries caps the rank at `n`. */
  lemma RankOfPrefix(s: seq<Entry>, w: int, n: nat)
    requires SortedByWpm(s) && n <= |s|
    ensures RankOf(s[..n], w) == if RankOf(s, w) < n then RankOf(s, w) else n
  {
    var t := s[..n];
    var k, k' := RankOf(s, w), RankOf(t, w);
    RankOfSplits(s, w);
    RankOfSplits(t, w);
    assert k' < n ==> s[k'].wpm < w by {
      if k' < n { assert t[k'] == s[k']; }
    }
    assert k < n ==> t[k].wpm < w by {
      if k < n { assert t[k] == s[k]; }
    }
  }

  /** Splicing `e` in at position k of s, or at min(k, n) of s's first n
      entries, gives the same first n entries. */
  lemma TakeSpliced(s: seq<Entry>, e: Entry, k: nat, n: nat)
    requires k <= |s| && n <= |s|
    ensures var k' := if k < n then k else n;
      Take(s[..n][..k'] + [e] + s[..n][k'..], n) == Take(s[..k] + [e] + s[k..], n)
  {
    var t := s[..n];
    var k' := if k < n then k else n;
    var a, b := Take(t[..k'] + [e] + t[k'..], n), Take(s[..k] + [e] + s[k..], n);
    forall i | 0 <= i < n ensures a[i] == b[i] {
      if i > k' {
        assert a[i] == t[k'..][i - k' - 1];
        assert b[i] == s[k..][i - k - 1];
      } else if i < k' {
        assert a[i] == t[..k'][i];
        assert b[i] == s[..k][i];
      }
    }
  }

  /** On a sorted list the entry lands at the same place whether or not the
      list was first cut to its first `n` entries, so the first `n` entries
      afterwards agree. */
  lemma TakeInsertPrefix(s: seq<Entry>, e: Entry, n: nat)
    requires SortedByWpm(s)
    ensures Take(Insert(Take(s, n), e), n) == Take(Insert(s, e), n)
  {
    if |s| >= n {
      var t := s[..n];
      assert Take(s, n) == t;
      assert SortedByWpm(t);
      RankOfPrefix(s, e.wpm, n);
      InsertPosition(s, e);
      InsertPosition(t, e);
      TakeSpliced(s, e, RankOf(s, e.wpm), n);
    }
  }

  /** The stored board after recording every entry of `tests` in turn,
      starting from empty storage. */
  function Replay(tests: seq<Entry>): (board: seq<Entry>)
    ensures |board| <= TopCount && SortedByWpm(board)
  {
    if tests == [] then [] else BoardAfter(Replay(tests[..|tests| - 1]), tests[|tests| - 1])
  }

  /** Keeping only five entries after each test loses nothing: the stored
      board is always the first five of a stable sort of every test so far. */
  lemma {:induction false} ReplayIsTopOfAll(tests: seq<Entry>)
    ensures Replay(tests) == Take(SortByWpm(tests), TopCount)
  {
    if tests != [] {
      var init, e := tests[..|tests| - 1], tests[|tests| - 1];
      var sorted := SortByWpm(init);
      calc {
        Replay(tests);
        BoardAfter(Replay(init), e);
        Take(SortByWpm(Replay(init) + [e]), TopCount);
        { SortPushed(Replay(init), e); }
        Take(Insert(Replay(init), e), TopCount);
        { ReplayIsTopOfAll(init); }
        Take(Insert(Take(sorted, TopCount), e), TopCount);
        { TakeInsertPrefix(sorted, e, TopCount); }
        Take(Insert(sorted, e), TopCount);
        Take(SortByWpm(tests), TopCount);
      }
    }
  }

  lemma SplitLast(r: seq<Entry>, j: nat)
    requires j < |r|
    ensures r[..|r| - 1][j..] + [r[|r| - 1]] == r[j..]
  {
  }

  lemma ConcatShift(p: seq<Entry>, q: seq<Entry>, l: Entry)
    ensures p + q + [l] == p + (q + [l])
  {
  }

  /** Inserting x into r puts it after r[..j] when everything from j on is
      slower than x and r[j - 1], if any, is not. */
  lemma {:induction false} InsertAfterPrefix(r: seq<Entry>, j: nat, x: Entry)
    requires j <= |r|
    requires j == 0 || r[j - 1].wpm >= x.wpm
    requires forall m :: j <= m < |r| ==> r[m].wpm < x.wpm
    ensures Insert(r, x) == r[..j] + [x] + r[j..]
    decreases |r|
  {
    if j == |r| {
      assert r[..j] == r && r[j..] == [];
    } else {
      var init, last := r[..|r| - 1], r[|r| - 1];
      assert last.wpm < x.wpm;
      assert Insert(r, x) == Insert(init, x) + [last];
      assert forall m :: j <= m < |init| ==> init[m].wpm < x.wpm;
      InsertAfterPrefix(init, j, x);
      var p, q := r[..j] + [x], init[j..];
      assert init[..j] == r[..j];
      assert Insert(init, x) == p + q;
      SplitLast(r, j);
      ConcatShift(p, q, last);
    }
  }

  /** Shifts the entries before index i that are slower than x one place to
      the right, leaving a gap at the returned index. */
  method OpenGap(a: array<Entry>, i: nat, x: Entry) returns (j: nat)
    requires i < a.Length
    modifies a
    ensures j <= i
    ensures j == 0 || a[j - 1].wpm >= x.wpm
    ensures forall m :: 0 <= m < j ==> a[m] == old(a[m])
    ensures forall m :: j < m <= i ==> a[m] == old(a[m - 1])
    ensures forall m :: j <= m < i ==> old(a[m]).wpm < x.wpm
    ensures forall m :: i < m < a.Length ==> a[m] == old(a[m])
  {
    j := i;
    while j > 0 && a[j - 1].wpm < x.wpm
      invariant j <= i
      invariant forall m :: 0 <= m < j ==> a[m] == old(a[m])
      invariant forall m :: j < m <= i ==> a[m] == old(a[m - 1])
      invariant forall m :: j <= m < i ==> old(a[m]).wpm < x.wpm
      invariant forall m :: i < m < a.Length ==> a[m] == old(a[m])
    {
      a[j] := a[j - 1];
      j := j - 1;
    }
  }

  /** Moves a[i] left past the slower entries before it, as one step of
      insertion sort. */
  method InsertLast(a: array<Entry>, i: nat)
    requires i < a.Length
    modifies a
    ensures a[..i + 1] == Insert(old(a[..i]), old(a[i]))
    ensures forall m :: i < m < a.Length ==> a[m] == old(a[m])
  {
    var x := a[i];
    ghost var r := a[..i];
    var j := OpenGap(a, i, x);
    a[j] := x;
    InsertAfterPrefix(r, j, x);
    GapFilled(a[..i + 1], r, j, x);
  }

  /** The array prefix after the loop: r with x placed at index j. */
  lemma GapFilled(cur: seq<Entry>, r: seq<Entry>, j: nat, x: Entry)
    requires j <= |r| && |cur| == |r| + 1
    requires forall m :: 0 <= m < j ==> cur[m] == r[m]
    requires cur[j] == x
    requires forall m :: j < m <= |r| ==> cur[m] == r[m - 1]
    ensures cur == r[..j] + [x] + r[j..]
  {
    var result := r[..j] + [x] + r[j..];
    forall m | 0 <= m < |cur| ensures cur[m] == result[m] {
      if m < j {
        assert result[m] == r[..j][m];
      } else if m > j {
        assert result[m] == r[j..][m - j - 1];
      }
    }
  }

  /** Sorting a prefix one entry longer inserts that entry into the sorted prefix. */
  lemma SortPrefixStep(input: seq<Entry>, i: nat)
    requires i < |input|
    ensures SortByWpm(input[..i + 1]) == Insert(SortByWpm(input[..i]), input[i])
  {
    assert input[..i + 1][..i] == input[..i];
  }

  lemma FullSlice(s: seq<Entry>)
    ensures s[..|s|] == s
  {
  }

  /** Sorts the array in place, fastest first, keeping the order of equal wpm. */
  method SortInPlace(a: array<Entry>)
    modifies a
    ensures a[..] == SortByWpm(old(a[..]))
  {
    ghost var input := a[..];
    var i := 0;
    while i < a.Length
      invariant 0 <= i <= a.Length
      invariant a[..i] == SortByWpm(input[..i])
      invariant forall m :: i <= m < a.Length ==> a[m] == input[m]
    {
      ghost var sortedPrefix := a[..i];
      assert a[i] == input[i];
      InsertLast(a, i);
      assert a[..i + 1] == Insert(sortedPrefix, input[i]);
      SortPrefixStep(input, i);
      i := i + 1;
    }
    FullSlice(input);
    assert a[..] == a[..a.Length];
  }

  /** `updateLeaderboard` on the list read from storage: push the new entry,
      sort, keep the first five. */
  method TopFive(stored: seq<Entry>, e: Entry) returns (top5: seq<Entry>)
    ensures top5 == BoardAfter(stored, e)
    ensures |top5| <= TopCount && SortedByWpm(top5)
  {
    var leaderboard := new Entry[|stored| + 1];
    forall i | 0 <= i < |stored| {
      leaderboard[i] := stored[i];
    }
    leaderboard[|stored|] := e;
    ghost var pushed := stored + [e];
    assert forall m :: 0 <= m < leaderboard.Length ==> leaderboard[m] == pushed[m];
    assert leaderboard[..] == pushed;
    SortInPlace(leaderboard);
    top5 := Take(leaderboard[..], TopCount);
  }

  /** The board kept in browser storage. */
  class Board {
    var entries: seq<Entry>

    /** `stored` is the list read back from storage (empty when absent). */
    constructor (stored: seq<Entry>)
      ensures entries == stored
    {
      entries := stored;
    }

    method UpdateLeaderboard(date: string, wpm: int, accuracy: int)
      modifies this
      ensures entries == BoardAfter(old(entries), Entry(date, wpm, accuracy))
      ensures |entries| <= TopCount && SortedByWpm(entries)
    {
      entries := TopFive(entries, Entry(date, wpm, accuracy));
    }
  }
}
