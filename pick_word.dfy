/** The daily word picker: the word of the day is the entry of the word list
    at (days since 2023-01-01) modulo the length of the list.
    Dates are day ordinals (days since 1970-01-01), so adding one day is `+ 1`. */
module PickWord {

  /** 2023-01-01, the date the game starts counting from, as a day ordinal. */
  const GAME_START_DATE: int := 19358

  /** Whole days from the start date to `currentDate`; none on or before it. */
  function DaysSinceStart(currentDate: int): (days: nat)
    ensures currentDate <= GAME_START_DATE ==> days == 0
    ensures currentDate >= GAME_START_DATE ==> GAME_START_DATE + days == currentDate
  {
    if currentDate > GAME_START_DATE then currentDate - GAME_START_DATE else 0
  }

  /** `get_index`: walks from the start date to today one day at a time,
      counting the steps. */
  method GetIndex(currentDate: int) returns (index: nat)
    ensures currentDate <= GAME_START_DATE ==> index == 0
    ensures currentDate >= GAME_START_DATE ==> GAME_START_DATE + index == currentDate
    ensures index == DaysSinceStart(currentDate)
  {
    var gamestartDate := GAME_START_DATE;
    index := 0;
    while gamestartDate < currentDate
      invariant gamestartDate == GAME_START_DATE + index
      invariant index == 0 || gamestartDate <= currentDate
      decreases currentDate - gamestartDate
    {
      index := index + 1;
      gamestartDate := gamestartDate + 1;
    }
  }

  /** The word of the day for a given date. */
  function DailyWord(wordList: seq<string>, currentDate: int): (word: string)
    requires |wordList| > 0
    ensures word in wordList
  {
    wordList[DaysSinceStart(currentDate) % |wordList|]
  }

  /** `gen`: the entry at the day index modulo the list length. The list must
      be non-empty, or the modulo divides by zero. */
  method Gen(wordList: seq<string>, currentDate: int) returns (word: string)
    requires |wordList| > 0
    ensures word == DailyWord(wordList, currentDate)
  {
    var index := GetIndex(currentDate);
    word := wordList[index % |wordList|];
  }

  /** Every date up to and including the start date gives the first word. */
  lemma DailyWordBeforeStart(wordList: seq<string>, currentDate: int)
    requires |wordList| > 0
    requires currentDate <= GAME_START_DATE
    ensures DailyWord(wordList, currentDate) == wordList[0]
  {
  }

  /** The day after any date on or after the start date moves one step
      along the list, wrapping at its end. */
  lemma DailyWordNextDay(wordList: seq<string>, currentDate: int)
    requires |wordList| > 0
    requires currentDate >= GAME_START_DATE
    ensures DailyWord(wordList, currentDate + 1)
         == wordList[(DaysSinceStart(currentDate) + 1) % |wordList|]
  {
  }

  /** The words cycle: `|wordList|` days on, the same word comes back. */
  lemma DailyWordCycles(wordList: seq<string>, currentDate: int)
    requires |wordList| > 0
    requires currentDate >= GAME_START_DATE
    ensures DailyWord(wordList, currentDate + |wordList|) == DailyWord(wordList, currentDate)
  {
    var n, len := DaysSinceStart(currentDate), |wordList|;
    assert DaysSinceStart(currentDate + len) == n + len;
    ModAddLength(n, len);
  }

  lemma ModAddLength(n: nat, len: nat)
    requires len > 0
    ensures (n + len) % len == n % len
  {
    ModUnique(n + len, len, n / len + 1, n % len);
  }

  /** Division with remainder is unique. */
  lemma ModUnique(a: int, len: int, q: int, r: int)
    requires len > 0 && 0 <= r < len && a == q * len + r
    ensures a % len == r
  {
    var q', r' := a / len, a % len;
    assert (q - q') * len == r' - r;
    if q > q' {
      MulAtLeast(q - q', len);
    } else if q < q' {
      MulAtLeast(q' - q, len);
    }
  }

  lemma MulAtLeast(k: int, len: int)
    requires k >= 1 && len > 0
    ensures k * len >= len
  {
    assert k * len == (k - 1) * len + len;
  }

  /** With at least two distinct words, the word changes from each day to the
      next (after the start date). */
  lemma DailyWordChangesEachDay(wordList: seq<string>, currentDate: int)
    requires |wordList| >= 2
    requires forall i, j :: 0 <= i < j < |wordList| ==> wordList[i] != wordList[j]
    requires currentDate >= GAME_START_DATE
    ensures DailyWord(wordList, currentDate + 1) != DailyWord(wordList, currentDate)
  {
    var n, len := DaysSinceStart(currentDate), |wordList|;
    assert DaysSinceStart(currentDate + 1) == n + 1;
    var q, r := n / len, n % len;
    if r + 1 < len {
      ModUnique(n + 1, len, q, r + 1);
    } else {
      ModUnique(n + 1, len, q + 1, 0);
    }
  }
}
