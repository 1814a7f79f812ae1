/** The Twordle game engine: a five-slot guess buffer, the history of submitted
    guesses (newest first) with their attempt numbers, the three ever-growing
    lists of green, yellow and gray letters that colour the keyboard, and the
    `solved` flag after which every message is ignored.
    Clocks are replaced by integer milliseconds passed in by the caller. */
module App {
  import opened Text
  import PickWord

  datatype Option<T> = None | Some(value: T)

  /** The messages `update` handles. */
  datatype Msg = AddLetter(character: char) | DeleteLetter | SubmitWord

  datatype GameType = Daily | Unlimited

  /** A tile or key colour: bg-green-700, bg-yellow-700, bg-gray-700 and, for a
      key no guess has used yet, bg-neutral-800. */
  datatype Colour = Green | Yellow | Gray | Neutral

  /** Keyboard precedence: green over yellow over gray over an unused key. */
  function Rank(c: Colour): nat
  {
    match c
    case Neutral => 0
    case Gray => 1
    case Yellow => 2
    case Green => 3
  }

  /** Number of slots in the guess buffer. */
  const WORD_LENGTH: nat := 5

  // ---------------------------------------------------------------------------
  // The guess buffer

  /** The buffer holding `letters`: one letter per slot from the left, the
      remaining slots empty. */
  function Slots(letters: seq<char>): (slots: seq<string>)
    requires |letters| <= WORD_LENGTH
    ensures |slots| == WORD_LENGTH
    ensures forall k :: 0 <= k < |letters| ==> slots[k] == [letters[k]]
    ensures forall k :: |letters| <= k < WORD_LENGTH ==> slots[k] == ""
  {
    seq(WORD_LENGTH, k requires 0 <= k < WORD_LENGTH => if k < |letters| then [letters[k]] else "")
  }

  /** A submitted row: five slots of one letter each. */
  predicate IsFullRow(row: seq<string>)
  {
    |row| == WORD_LENGTH && forall j :: 0 <= j < |row| ==> |row[j]| == 1
  }

  /** `position(|s| s.is_empty())`: the leftmost empty slot. */
  function FindEmptyStringIndex(vector: seq<string>): (r: Option<nat>)
    ensures r.Some? ==> r.value < |vector| && vector[r.value] == ""
    ensures r.Some? ==> forall k :: 0 <= k < r.value ==> vector[k] != ""
    ensures r.None? ==> forall k :: 0 <= k < |vector| ==> vector[k] != ""
  {
    if vector == [] then None
    else if vector[0] == "" then Some(0)
    else match FindEmptyStringIndex(vector[1..])
      case None => None
      case Some(i) => Some(i + 1)
  }

  /** `rposition(|s| !s.is_empty())`: the rightmost non-empty slot. */
  function FindNonEmptyStringIndex(vector: seq<string>): (r: Option<nat>)
    ensures r.Some? ==> r.value < |vector| && vector[r.value] != ""
    ensures r.Some? ==> forall k :: r.value < k < |vector| ==> vector[k] == ""
    ensures r.None? ==> forall k :: 0 <= k < |vector| ==> vector[k] == ""
  {
    if vector == [] then None
    else if vector[|vector| - 1] != "" then Some(|vector| - 1)
    else FindNonEmptyStringIndex(vector[..|vector| - 1])
  }

  /** In a buffer, the leftmost empty slot is the one just after the letters. */
  lemma FindEmptyInSlots(letters: seq<char>)
    requires |letters| <= WORD_LENGTH
    ensures FindEmptyStringIndex(Slots(letters))
         == if |letters| < WORD_LENGTH then Some(|letters|) else None
  {
    if |letters| < WORD_LENGTH {
      assert Slots(letters)[|letters|] == "";
    }
  }

  /** In a buffer, the rightmost non-empty slot holds the last letter. */
  lemma FindNonEmptyInSlots(letters: seq<char>)
    requires |letters| <= WORD_LENGTH
    ensures FindNonEmptyStringIndex(Slots(letters))
         == if |letters| > 0 then Some(|letters| - 1) else None
  {
    if |letters| > 0 {
      assert Slots(letters)[|letters| - 1] != "";
    }
  }

  /** Joining the slots of a buffer gives back its letters. */
  lemma {:induction false} JoinSlotsPrefix(letters: seq<char>, m: nat)
    requires |letters| <= WORD_LENGTH && m <= WORD_LENGTH
    ensures Join(Slots(letters)[..m]) == letters[..if m < |letters| then m else |letters|]
  {
    var slots := Slots(letters);
    if m > 0 {
      JoinSlotsPrefix(letters, m - 1);
      assert slots[..m][..m - 1] == slots[..m - 1];
      if m <= |letters| {
        assert letters[..m] == letters[..m - 1] + [letters[m - 1]];
      }
    }
  }

  lemma JoinSlots(letters: seq<char>)
    requires |letters| <= WORD_LENGTH
    ensures Join(Slots(letters)) == letters
  {
    JoinSlotsPrefix(letters, WORD_LENGTH);
    assert Slots(letters)[..WORD_LENGTH] == Slots(letters);
  }

  lemma FullRowOfSlots(letters: seq<char>)
    requires |letters| == WORD_LENGTH
    ensures IsFullRow(Slots(letters))
  {
  }

  /** Attempt numbers stored newest first: n, n-1, ..., 1. */
  predicate CountsDown(indexes: seq<nat>)
  {
    forall k :: 0 <= k < |indexes| ==> indexes[k] == |indexes| - k
  }

  /** `char::to_lowercase` on ASCII letters; other characters are kept. */
  function ToLowercase(c: char): (lower: char)
    ensures !('A' <= lower <= 'Z')
    ensures 'A' <= c <= 'Z' ==> 'a' <= lower <= 'z' && lower as int - c as int == 'a' as int - 'A' as int
    ensures !('A' <= c <= 'Z') ==> lower == c
  {
    if 'A' <= c <= 'Z' then (c as int + 32) as char else c
  }

  // ---------------------------------------------------------------------------
  // Colouring

  /** `letter_colour`: green when the target has `letter` at position `i`,
      yellow when it contains it anywhere else, gray otherwise. */
  function LetterColour(wordle: string, letter: string, i: nat): (c: Colour)
    requires i < |wordle|
    ensures c != Neutral
    ensures c == Green <==> letter == [wordle[i]]
    ensures c == Yellow ==> |letter| <= |wordle| && letter != [wordle[i]]
  {
    if [wordle[i]] == letter then Green
    else if Contains(wordle, letter) then Yellow
    else Gray
  }

  /** The classification of a single letter, stated on characters: there is
      no cap on how many times a letter is marked yellow. */
  lemma LetterColourOfChar(wordle: string, c: char, i: nat)
    requires i < |wordle|
    ensures LetterColour(wordle, [c], i) == Green <==> c == wordle[i]
    ensures LetterColour(wordle, [c], i) == Yellow <==> c != wordle[i] && c in wordle
    ensures LetterColour(wordle, [c], i) == Gray <==> c !in wordle
    ensures LetterColour(wordle, [c], i) != Neutral
  {
    ContainsChar(wordle, c);
  }

  /** Target "apple": the guess "apply" has four greens and a gray, and in the
      guess "ppppp" the three "p"s off the target's "p" positions are all
      yellow, although the target has only two "p"s. */
  lemma LetterColourExamples()
    ensures LetterColour("apple", "a", 0) == Green && LetterColour("apple", "p", 1) == Green
    ensures LetterColour("apple", "p", 2) == Green && LetterColour("apple", "l", 3) == Green
    ensures LetterColour("apple", "y", 4) == Gray
    ensures LetterColour("apple", "p", 0) == Yellow && LetterColour("apple", "p", 3) == Yellow
    ensures LetterColour("apple", "p", 4) == Yellow
  {
    LetterColourOfChar("apple", 'y', 4);
    LetterColourOfChar("apple", 'p', 0);
    LetterColourOfChar("apple", 'p', 3);
    LetterColourOfChar("apple", 'p', 4);
  }

  /** The letters of one row that receive colour `c`, in row order: what the
      loop of `SubmitWord` appends to that colour's list. */
  function LettersOf(wordle: string, row: seq<string>, c: Colour): seq<string>
    requires |row| <= |wordle|
  {
    if row == [] then []
    else
      var i := |row| - 1;
      LettersOf(wordle, row[..i], c) + (if LetterColour(wordle, row[i], i) == c then [row[i]] else [])
  }

  /** The letters of a row over the three colour lists, with repetitions. */
  ghost function Coloured(wordle: string, row: seq<string>): multiset<string>
    requires |row| <= |wordle|
  {
    multiset(LettersOf(wordle, row, Green)) + multiset(LettersOf(wordle, row, Yellow))
      + multiset(LettersOf(wordle, row, Gray))
  }

  /** Each letter of a row goes to exactly one of the three lists. */
  lemma {:induction false} LettersOfPartition(wordle: string, row: seq<string>)
    requires |row| <= |wordle|
    ensures multiset(LettersOf(wordle, row, Green)) + multiset(LettersOf(wordle, row, Yellow))
          + multiset(LettersOf(wordle, row, Gray)) == multiset(row)
    ensures LettersOf(wordle, row, Neutral) == []
  {
    LettersOfNeutral(wordle, row);
    ColouredIsRow(wordle, row);
  }

  lemma {:induction false} ColouredIsRow(wordle: string, row: seq<string>)
    requires |row| <= |wordle|
    ensures Coloured(wordle, row) == multiset(row)
  {
    if row != [] {
      ColouredIsRow(wordle, row[..|row| - 1]);
      ColouredLast(wordle, row);
      MultisetLast(row);
    }
  }

  /** The last letter of a row goes to exactly one of the three lists. */
  lemma ColouredLast(wordle: string, row: seq<string>)
    requires 0 < |row| <= |wordle|
    ensures Coloured(wordle, row) == Coloured(wordle, row[..|row| - 1]) + multiset{row[|row| - 1]}
  {
  }

  lemma MultisetLast<T>(s: seq<T>)
    requires s != []
    ensures multiset(s) == multiset(s[..|s| - 1]) + multiset{s[|s| - 1]}
  {
    assert s == s[..|s| - 1] + [s[|s| - 1]];
  }

  /** No letter of a row is left uncoloured. */
  lemma {:induction false} LettersOfNeutral(wordle: string, row: seq<string>)
    requires |row| <= |wordle|
    ensures LettersOf(wordle, row, Neutral) == []
  {
    if row != [] {
      LettersOfNeutral(wordle, row[..|row| - 1]);
    }
  }

  /** A letter is in the list of colour `c` exactly when some position of the
      row has that letter with that colour. */
  lemma {:induction false} LettersOfSpec(wordle: string, row: seq<string>, c: Colour, x: string)
    requires |row| <= |wordle|
    ensures x in LettersOf(wordle, row, c)
        <==> exists j :: 0 <= j < |row| && row[j] == x && LetterColour(wordle, x, j) == c
  {
    if row != [] {
      var i := |row| - 1;
      LettersOfSpec(wordle, row[..i], c, x);
      if exists j :: 0 <= j < |row| && row[j] == x && LetterColour(wordle, x, j) == c {
        var j :| 0 <= j < |row| && row[j] == x && LetterColour(wordle, x, j) == c;
        if j < i {
          assert row[..i][j] == x;
        }
      }
      if exists j :: 0 <= j < i && row[..i][j] == x && LetterColour(wordle, x, j) == c {
        var j :| 0 <= j < i && row[..i][j] == x && LetterColour(wordle, x, j) == c;
        assert row[j] == x;
      }
    }
  }

  /** The letters of colour `c` over a history stored newest first, oldest
      guess's letters first: the order the lists were appended in. */
  function HistoryLetters(wordle: string, rows: seq<seq<string>>, c: Colour): seq<string>
    requires forall k :: 0 <= k < |rows| ==> |rows[k]| <= |wordle|
  {
    if rows == [] then [] else HistoryLetters(wordle, rows[1..], c) + LettersOf(wordle, rows[0], c)
  }

  /** A new guess at the front of the history adds its letters at the back
      of each colour's list. */
  lemma HistoryLettersCons(wordle: string, row: seq<string>, rows: seq<seq<string>>)
    requires |row| <= |wordle|
    requires forall k :: 0 <= k < |rows| ==> |rows[k]| <= |wordle|
    ensures forall c :: HistoryLetters(wordle, [row] + rows, c)
                        == HistoryLetters(wordle, rows, c) + LettersOf(wordle, row, c)
  {
    var history := [row] + rows;
    assert history[0] == row && history[1..] == rows;
    forall c
      ensures HistoryLetters(wordle, history, c) == HistoryLetters(wordle, rows, c) + LettersOf(wordle, row, c)
    {
    }
  }

  /** Some guess in the history has letter `x` at a position coloured `c`. */
  ghost predicate Occurs(wordle: string, rows: seq<seq<string>>, c: Colour, x: string)
    requires forall k :: 0 <= k < |rows| ==> |rows[k]| <= |wordle|
  {
    exists k, j :: 0 <= k < |rows| && 0 <= j < |rows[k]| && rows[k][j] == x && LetterColour(wordle, x, j) == c
  }

  lemma {:induction false} HistoryLettersSpec(wordle: string, rows: seq<seq<string>>, c: Colour, x: string)
    requires forall k :: 0 <= k < |rows| ==> |rows[k]| <= |wordle|
    ensures x in HistoryLetters(wordle, rows, c) <==> Occurs(wordle, rows, c, x)
  {
    if rows != [] {
      var tail := rows[1..];
      HistoryLettersSpec(wordle, tail, c, x);
      LettersOfSpec(wordle, rows[0], c, x);
      if Occurs(wordle, rows, c, x) {
        var k, j :| 0 <= k < |rows| && 0 <= j < |rows[k]| && rows[k][j] == x && LetterColour(wordle, x, j) == c;
        if k > 0 {
          assert tail[k - 1][j] == x;
        }
      }
      if Occurs(wordle, tail, c, x) {
        var k, j :| 0 <= k < |tail| && 0 <= j < |tail[k]| && tail[k][j] == x && LetterColour(wordle, x, j) == c;
        assert rows[k + 1][j] == x;
      }
    }
  }

  /** `key_colour`: the colour of a keyboard key, by the precedence green,
      yellow, gray, unused. */
  function KeyColour(greenLetters: seq<string>, yellowLetters: seq<string>, grayLetters: seq<string>, letter: string): (c: Colour)
    ensures c == Green <==> letter in greenLetters
    ensures c == Neutral <==> letter !in greenLetters + yellowLetters + grayLetters
  {
    if letter in greenLetters then Green
    else if letter in yellowLetters then Yellow
    else if letter in grayLetters then Gray
    else Neutral
  }

  /** When the lists only grow, a key's colour never drops in rank. */
  lemma KeyColourMonotone(
    green: seq<string>, yellow: seq<string>, gray: seq<string>,
    green': seq<string>, yellow': seq<string>, gray': seq<string>, letter: string)
    requires green <= green' && yellow <= yellow' && gray <= gray'
    ensures Rank(KeyColour(green, yellow, gray, letter)) <= Rank(KeyColour(green', yellow', gray', letter))
  {
    PrefixMember(green, green', letter);
    PrefixMember(yellow, yellow', letter);
    PrefixMember(gray, gray', letter);
  }

  lemma PrefixMember(s: seq<string>, t: seq<string>, x: string)
    requires s <= t
    ensures x in s ==> x in t
  {
    if x in s {
      var i :| 0 <= i < |s| && s[i] == x;
      assert t[i] == x;
    }
  }

  /** The keyboard colour of a key, with the lists built from the history, is
      the best colour that letter got anywhere on the board. */
  lemma KeyColourOfHistory(wordle: string, rows: seq<seq<string>>, letter: string)
    requires forall k :: 0 <= k < |rows| ==> |rows[k]| <= |wordle|
    ensures var key := KeyColour(HistoryLetters(wordle, rows, Green), HistoryLetters(wordle, rows, Yellow),
                                 HistoryLetters(wordle, rows, Gray), letter);
      && (key == Green <==> Occurs(wordle, rows, Green, letter))
      && (key == Yellow <==> !Occurs(wordle, rows, Green, letter) && Occurs(wordle, rows, Yellow, letter))
      && (key == Gray <==> !Occurs(wordle, rows, Green, letter) && !Occurs(wordle, rows, Yellow, letter)
                           && Occurs(wordle, rows, Gray, letter))
      && (key == Neutral <==> !Occurs(wordle, rows, Green, letter) && !Occurs(wordle, rows, Yellow, letter)
                              && !Occurs(wordle, rows, Gray, letter))
  {
    HistoryLettersSpec(wordle, rows, Green, letter);
    HistoryLettersSpec(wordle, rows, Yellow, letter);
    HistoryLettersSpec(wordle, rows, Gray, letter);
  }

  // ---------------------------------------------------------------------------
  // Time and score

  /** `format_time_from_now` as written, for an elapsed time in milliseconds.
      The seconds it prints are the total `num_seconds`, not the seconds left
      over after the whole minutes. */
  function FormatTimeFromNow(elapsedMs: int): (message: string)
    ensures 0 <= elapsedMs < 1000 ==> message == IntToString(elapsedMs) + " milliseconds!"
    ensures 1000 <= elapsedMs < 60_000 ==> message == IntToString(elapsedMs / 1000) + " seconds"
  {
    var seconds := TruncDiv(elapsedMs, 1000);
    var minutes := TruncDiv(seconds, 60);
    if minutes == 0 then
      if seconds == 0 then IntToString(elapsedMs) + " milliseconds!"
      else IntToString(seconds) + " seconds"
    else if minutes == 1 then
      if seconds == 0 then "1 minute" else "1 minute and " + IntToString(seconds) + " seconds"
    else if seconds == 0 then IntToString(minutes) + " minutes"
    else IntToString(minutes) + " minutes and " + IntToString(seconds) + " seconds"
  }

  /** From one minute on, the message always has a seconds clause, and that
      clause carries the total number of seconds. */
  lemma FormatTimeFromNowPastAMinute(elapsedMs: int)
    requires elapsedMs >= 60_000
    ensures var seconds := TruncDiv(elapsedMs, 1000);
      FormatTimeFromNow(elapsedMs)
        == (if seconds < 120 then "1 minute and "
            else IntToString(TruncDiv(seconds, 60)) + " minutes and ")
           + IntToString(seconds) + " seconds"
      && seconds >= 60
  {
  }

  /** 75 seconds read "1 minute and 75 seconds". */
  lemma FormatTimeFromNowExample()
    ensures FormatTimeFromNow(75_000) == "1 minute and 75 seconds"
  {
    assert TruncDiv(75_000, 1000) == 75 && TruncDiv(75, 60) == 1;
    assert NatToString(75) == "75" by {
      assert NatToString(7) == "7";
    }
  }

  /** Two minutes read "2 minutes and 120 seconds". */
  lemma FormatTimeFromNowTwoMinutes()
    ensures FormatTimeFromNow(120_000) == "2 minutes and 120 seconds"
  {
    assert TruncDiv(120_000, 1000) == 120 && TruncDiv(120, 60) == 2;
    FormatTimeFromNowPastAMinute(120_000);
    assert IntToString(2) == "2";
    OneHundredTwentyString();
  }

  lemma OneHundredTwentyString()
    ensures IntToString(120) == "120"
  {
    assert NatToString(1) == "1" && NatToString(2) == "2" && NatToString(0) == "0";
    assert NatToString(12) == NatToString(1) + "2";
    assert NatToString(120) == NatToString(12) + "0";
  }

  /** The same message with the seconds left over after the whole minutes, as
      the message's wording means. */
  function FormatElapsed(elapsedMs: int): (message: string)
    ensures 0 <= elapsedMs < 1000 ==> message == IntToString(elapsedMs) + " milliseconds!"
    ensures 1000 <= elapsedMs < 60_000 ==> message == IntToString(elapsedMs / 1000) + " seconds"
  {
    var totalSeconds := TruncDiv(elapsedMs, 1000);
    var minutes := TruncDiv(totalSeconds, 60);
    var seconds := totalSeconds - minutes * 60;
    if minutes == 0 then
      if seconds == 0 then IntToString(elapsedMs) + " milliseconds!"
      else IntToString(seconds) + " seconds"
    else if minutes == 1 then
      if seconds == 0 then "1 minute" else "1 minute and " + IntToString(seconds) + " seconds"
    else if seconds == 0 then IntToString(minutes) + " minutes"
    else IntToString(minutes) + " minutes and " + IntToString(seconds) + " seconds"
  }

  /** From one minute on, the minutes and leftover seconds printed add
      back up to the elapsed whole seconds, the leftover is under a minute,
      and the seconds clause is left out exactly when it would say zero. */
  lemma FormatElapsedParts(elapsedMs: int)
    requires elapsedMs >= 60_000
    ensures var totalSeconds := TruncDiv(elapsedMs, 1000);
      var minutes := totalSeconds / 60;
      var seconds := totalSeconds % 60;
      && minutes >= 1 && 0 <= seconds < 60 && minutes * 60 + seconds == totalSeconds
      && FormatElapsed(elapsedMs)
           == (if minutes == 1 then "1 minute" else IntToString(minutes) + " minutes")
              + (if seconds == 0 then "" else " and " + IntToString(seconds) + " seconds")
  {
    var totalSeconds := TruncDiv(elapsedMs, 1000);
    var minutes, seconds := totalSeconds / 60, totalSeconds % 60;
    assert TruncDiv(totalSeconds, 60) == minutes;
    assert totalSeconds - minutes * 60 == seconds;
    assert minutes >= 1;
  }

  /** 75 seconds read "1 minute and 15 seconds". */
  lemma FormatElapsedExample()
    ensures FormatElapsed(75_000) == "1 minute and 15 seconds"
  {
    assert TruncDiv(75_000, 1000) == 75 && TruncDiv(75, 60) == 1;
    assert NatToString(1) == "1" && NatToString(5) == "5";
    assert NatToString(15) == NatToString(1) + "5";
  }

  /** Two minutes read "2 minutes": the leftover-seconds clause is dropped. */
  lemma FormatElapsedTwoMinutes()
    ensures FormatElapsed(120_000) == "2 minutes"
  {
    assert TruncDiv(120_000, 1000) == 120 && TruncDiv(120, 60) == 2;
    assert IntToString(2) == "2";
  }

  /** `generate_score`: 100 less one point per elapsed second and one per
      guess, kept within 1 to 100. */
  function GenerateScore(elapsedMs: int, chancesUsed: nat): (score: int)
    ensures 1 <= score <= 100
    ensures var raw := 100 - (TruncDiv(elapsedMs, 1000) + chancesUsed);
      (1 <= raw <= 100 ==> score == raw) && (raw < 1 ==> score == 1) && (raw > 100 ==> score == 100)
  {
    var rating := 100 - (TruncDiv(elapsedMs, 1000) + chancesUsed);
    var atLeastOne := if rating < 1 then 1 else rating;
    if atLeastOne > 100 then 100 else atLeastOne
  }

  /** Taking longer or using more guesses never raises the score. */
  lemma GenerateScoreMonotone(elapsedMs: int, chancesUsed: nat, elapsedMs': int, chancesUsed': nat)
    requires elapsedMs <= elapsedMs' && chancesUsed <= chancesUsed'
    ensures GenerateScore(elapsedMs', chancesUsed') <= GenerateScore(elapsedMs, chancesUsed)
  {
    TruncDivMonotone(elapsedMs, elapsedMs', 1000);
  }

  lemma GenerateScoreExamples()
    ensures GenerateScore(10_000, 2) == 88
    ensures GenerateScore(200_000, 5) == 1
  {
  }

  // ---------------------------------------------------------------------------
  // Keyboard input

  /** `char::is_alphabetic` on the characters that reach it: `handle_keypress`
      only asks about one-byte, that is ASCII, keys. */
  predicate IsAlphabetic(c: char)
    ensures IsAlphabetic(c) <==> 'a' <= ToLowercase(c) <= 'z'
  {
    'a' <= c <= 'z' || 'A' <= c <= 'Z'
  }

  /** `handle_keypress`: Backspace deletes, Enter submits, a one-byte
      alphabetic key adds that letter; any other key is ignored. */
  function HandleKeypress(key: string): (r: Option<Msg>)
    ensures r.Some? && r.value.AddLetter? ==> key == [r.value.character] && IsAlphabetic(key[0])
  {
    if key == "Backspace" then Some(DeleteLetter)
    else if key == "Enter" then Some(SubmitWord)
    else if Utf8Len(key) == 1 && key != [] && IsAlphabetic(key[0]) then Some(AddLetter(key[0]))
    else None
  }

  lemma HandleKeypressSpec(key: string)
    ensures HandleKeypress(key) == Some(DeleteLetter) <==> key == "Backspace"
    ensures HandleKeypress(key) == Some(SubmitWord) <==> key == "Enter"
    ensures forall c :: HandleKeypress(key) == Some(AddLetter(c))
                        <==> key == [c] && ('a' <= c <= 'z' || 'A' <= c <= 'Z')
    ensures HandleKeypress(key) == None
        <==> key != "Backspace" && key != "Enter" && !(|key| == 1 && IsAlphabetic(key[0]))
  {
    Utf8LenOne(key);
  }

  // ---------------------------------------------------------------------------
  // The game

  class Twordle {
    const wordle: string
    var solved: bool
    var gameStarted: bool
    var timeStarted: int
    var typedWord: seq<string>
    var typedWords: seq<seq<string>>
    var typedWordsIndexes: seq<nat>
    var greenLetters: seq<string>
    var yellowLetters: seq<string>
    var grayLetters: seq<string>
    /** The letters in the guess buffer, left to right. */
    ghost var typed: seq<char>

    ghost predicate Valid()
      reads this
    {
      && HistoryValid()
      && |typed| <= WORD_LENGTH
      && typedWord == Slots(typed)
      && (solved <==> |typedWords| > 0 && Join(typedWords[0]) == wordle)
      && (!gameStarted ==> typed == [] && typedWords == [])
    }

    /** The submitted guesses: full rows, attempt numbers counting down to 1,
        the colour lists built from them, and no guess but the newest equal
        to the target. */
    ghost predicate HistoryValid()
      reads this`typedWords, this`typedWordsIndexes, this`greenLetters, this`yellowLetters, this`grayLetters
    {
      && |wordle| >= WORD_LENGTH
      && (forall k :: 0 <= k < |typedWords| ==> IsFullRow(typedWords[k]))
      && |typedWordsIndexes| == |typedWords| && CountsDown(typedWordsIndexes)
      && greenLetters == HistoryLetters(wordle, typedWords, Green)
      && yellowLetters == HistoryLetters(wordle, typedWords, Yellow)
      && grayLetters == HistoryLetters(wordle, typedWords, Gray)
      && (forall k :: 1 <= k < |typedWords| ==> Join(typedWords[k]) != wordle)
    }

    /** `create`: the daily word, or the given random word in unlimited mode
        (the daily word is picked in both modes, so the list must not be
        empty). The target that is kept must have a letter for every slot.
        The clock reading is taken now and again at the first key. */
    constructor (gameType: GameType, wordList: seq<string>, currentDate: int, unlimitedWord: string, now: int)
      requires |wordList| > 0
      requires |if gameType == Daily then PickWord.DailyWord(wordList, currentDate) else unlimitedWord| >= WORD_LENGTH
      ensures Valid()
      ensures wordle == if gameType == Daily then PickWord.DailyWord(wordList, currentDate) else unlimitedWord
      ensures !solved && !gameStarted && timeStarted == now
      ensures typed == [] && typedWord == ["", "", "", "", ""]
      ensures typedWords == [] && typedWordsIndexes == []
      ensures greenLetters == [] && yellowLetters == [] && grayLetters == []
    {
      var word := PickWord.Gen(wordList, currentDate);
      if gameType == Unlimited {
        word := unlimitedWord;
      }
      wordle := word;
      solved := false;
      gameStarted := false;
      timeStarted := now;
      typedWord := ["", "", "", "", ""];
      typedWords := [];
      typedWordsIndexes := [];
      greenLetters := [];
      yellowLetters := [];
      grayLetters := [];
      typed := [];
      new;
      assert Slots([]) == typedWord;
    }

    /** `generate_score` on this game at clock reading `now`: the time since
        the clock started and the number of guesses submitted so far. */
    function Score(now: int): (score: int)
      reads this
      ensures 1 <= score <= 100
      ensures var raw := 100 - (TruncDiv(now - timeStarted, 1000) + |typedWords|);
        1 <= raw <= 100 ==> score == raw
    {
      GenerateScore(now - timeStarted, |typedWords|)
    }

    /** `format_time_from_now` on this game at clock reading `now`; from a
        minute on, the seconds clause carries the total seconds. */
    function TimeFromNow(now: int): (message: string)
      reads this
      ensures var seconds := TruncDiv(now - timeStarted, 1000);
        now - timeStarted >= 60_000 ==>
          message == (if seconds < 120 then "1 minute and "
                      else IntToString(TruncDiv(seconds, 60)) + " minutes and ")
                     + IntToString(seconds) + " seconds"
    {
      var elapsedMs := now - timeStarted;
      if elapsedMs >= 60_000 then
        FormatTimeFromNowPastAMinute(elapsedMs);
        FormatTimeFromNow(elapsedMs)
      else
        FormatTimeFromNow(elapsedMs)
    }

    /** `update`: handles one message and reports whether anything changed. */
    method Update(msg: Msg, now: int) returns (changed: bool)
      requires Valid()
      modifies this
      ensures Valid()
      // once solved, every message is ignored
      ensures old(solved) ==> !changed && unchanged(this)
      ensures !old(solved) && msg.AddLetter? ==> AddedLetter(msg.character, now, changed)
      ensures !old(solved) && msg.DeleteLetter? ==> DeletedLetter(changed)
      ensures !old(solved) && msg.SubmitWord? ==> SubmittedWord(changed)
      // the history grows only at the front, the colour lists only at the back
      ensures |old(typedWords)| <= |typedWords| <= |old(typedWords)| + 1
      ensures typedWords[|typedWords| - |old(typedWords)|..] == old(typedWords)
      ensures old(greenLetters) <= greenLetters && old(yellowLetters) <= yellowLetters
      ensures old(grayLetters) <= grayLetters
      ensures old(solved) ==> solved
      // so no key's colour ever drops in rank
      ensures forall letter ::
        Rank(KeyColour(old(greenLetters), old(yellowLetters), old(grayLetters), letter))
          <= Rank(KeyColour(greenLetters, yellowLetters, grayLetters, letter))
    {
      if solved {
        return false;
      }
      match msg {
        case AddLetter(character) =>
          changed := HandleAddLetter(character, now);
        case DeleteLetter =>
          changed := HandleDeleteLetter();
        case SubmitWord =>
          changed := HandleSubmitWord();
      }
      forall letter
        ensures Rank(KeyColour(old(greenLetters), old(yellowLetters), old(grayLetters), letter))
             <= Rank(KeyColour(greenLetters, yellowLetters, grayLetters, letter))
      {
        KeyColourMonotone(old(greenLetters), old(yellowLetters), old(grayLetters),
                          greenLetters, yellowLetters, grayLetters, letter);
      }
    }

    /** The effect of `AddLetter`: the clock starts at the first letter; the
        lower-cased letter goes into the leftmost empty slot, if there is one,
        and nothing else changes. */
    twostate predicate AddedLetter(character: char, now: int, changed: bool)
      reads this
      requires old(Valid())
    {
      && gameStarted
      && timeStarted == (if old(gameStarted) then old(timeStarted) else now)
      && changed == (|old(typed)| < WORD_LENGTH)
      && typed == (if changed then old(typed) + [ToLowercase(character)] else old(typed))
      && typedWord == (if changed then old(typedWord)[|old(typed)| := [ToLowercase(character)]]
                       else old(typedWord))
      && solved == old(solved) && typedWords == old(typedWords)
      && typedWordsIndexes == old(typedWordsIndexes) && greenLetters == old(greenLetters)
      && yellowLetters == old(yellowLetters) && grayLetters == old(grayLetters)
    }

    /** The effect of `DeleteLetter`: the rightmost filled slot is cleared, if
        there is one, and nothing else changes. */
    twostate predicate DeletedLetter(changed: bool)
      reads this
      requires old(Valid())
    {
      && changed == (|old(typed)| > 0)
      && typed == (if changed then old(typed)[..|old(typed)| - 1] else old(typed))
      && typedWord == (if changed then old(typedWord)[|old(typed)| - 1 := ""] else old(typedWord))
      && solved == old(solved) && gameStarted == old(gameStarted) && timeStarted == old(timeStarted)
      && typedWords == old(typedWords) && typedWordsIndexes == old(typedWordsIndexes)
      && greenLetters == old(greenLetters) && yellowLetters == old(yellowLetters)
      && grayLetters == old(grayLetters)
    }

    /** The effect of `SubmitWord`: with any slot empty, nothing at all changes.
        Otherwise the guess goes to the front of the history with the new
        history length as its attempt number, its letters are appended to the
        colour lists, the game is solved exactly when the guess is the target,
        and the buffer is emptied. */
    twostate predicate SubmittedWord(changed: bool)
      reads this
      requires old(Valid())
    {
      && changed == (|old(typed)| == WORD_LENGTH)
      && (!changed ==> unchanged(this))
      && (changed ==>
        && typedWords == [old(typedWord)] + old(typedWords)
        && typedWordsIndexes == [|typedWords|] + old(typedWordsIndexes)
        && greenLetters == old(greenLetters) + LettersOf(wordle, old(typedWord), Green)
        && yellowLetters == old(yellowLetters) + LettersOf(wordle, old(typedWord), Yellow)
        && grayLetters == old(grayLetters) + LettersOf(wordle, old(typedWord), Gray)
        && solved == (old(typed) == wordle)
        && typed == [] && typedWord == ["", "", "", "", ""]
        && gameStarted == old(gameStarted) && timeStarted == old(timeStarted))
    }

    method HandleAddLetter(character: char, now: int) returns (changed: bool)
      requires Valid() && !solved
      modifies this
      ensures Valid() && AddedLetter(character, now, changed)
    {
      if !gameStarted {
        timeStarted := now;
        gameStarted := true;
      }
      FindEmptyInSlots(typed);
      var i := FindEmptyStringIndex(typedWord);
      match i {
        case Some(i) =>
          var letter := ToLowercase(character);
          typedWord := typedWord[i := [letter]];
          typed := typed + [letter];
          assert typedWord == Slots(typed);
          changed := true;
        case None =>
          changed := false;
      }
    }

    method HandleDeleteLetter() returns (changed: bool)
      requires Valid() && !solved
      modifies this
      ensures Valid() && DeletedLetter(changed)
    {
      FindNonEmptyInSlots(typed);
      var i := FindNonEmptyStringIndex(typedWord);
      match i {
        case Some(i) =>
          typedWord := typedWord[i := ""];
          typed := typed[..i];
          assert typedWord == Slots(typed);
          changed := true;
        case None =>
          changed := false;
      }
    }

    method HandleSubmitWord() returns (changed: bool)
      requires Valid() && !solved
      modifies this
      ensures Valid() && SubmittedWord(changed)
    {
      assert (forall k :: 0 <= k < |typedWord| ==> typedWord[k] != "") <==> |typed| == WORD_LENGTH by {
        if |typed| < WORD_LENGTH {
          assert typedWord[|typed|] == "";
        }
      }
      if !(forall k :: 0 <= k < |typedWord| ==> typedWord[k] != "") {
        return false;
      }
      RecordGuess();
      changed := true;
    }

    /** `SubmitWord` past its guard: records the full guess, colours its
        letters, checks it against the target and empties the buffer. */
    method RecordGuess()
      requires Valid() && !solved && |typed| == WORD_LENGTH
      modifies this
      ensures Valid()
      ensures typedWords == [old(typedWord)] + old(typedWords)
      ensures typedWordsIndexes == [|typedWords|] + old(typedWordsIndexes)
      ensures greenLetters == old(greenLetters) + LettersOf(wordle, old(typedWord), Green)
      ensures yellowLetters == old(yellowLetters) + LettersOf(wordle, old(typedWord), Yellow)
      ensures grayLetters == old(grayLetters) + LettersOf(wordle, old(typedWord), Gray)
      ensures solved == (old(typed) == wordle)
      ensures typed == [] && typedWord == ["", "", "", "", ""]
      ensures gameStarted == old(gameStarted) && timeStarted == old(timeStarted)
    {
      PushGuess();
      JoinSlots(typed);
      if Join(typedWord) == wordle {
        solved := true;
      }
      typedWord := ["", "", "", "", ""];
      typed := [];
      assert typedWord == Slots(typed);
    }

    /** Puts the full guess in the buffer at the front of the history, with
        its attempt number, and colours its letters. */
    method PushGuess()
      requires Valid() && !solved && |typed| == WORD_LENGTH
      modifies this`typedWords, this`typedWordsIndexes, this`greenLetters, this`yellowLetters, this`grayLetters
      ensures HistoryValid()
      ensures typedWords == [typedWord] + old(typedWords)
      ensures typedWordsIndexes == [|typedWords|] + old(typedWordsIndexes)
      ensures greenLetters == old(greenLetters) + LettersOf(wordle, typedWord, Green)
      ensures yellowLetters == old(yellowLetters) + LettersOf(wordle, typedWord, Yellow)
      ensures grayLetters == old(grayLetters) + LettersOf(wordle, typedWord, Gray)
    {
      ghost var rows0 := typedWords;
      FullRowOfSlots(typed);
      HistoryAfterGuess(wordle, typedWord, typedWords, typedWordsIndexes);
      typedWords := [typedWord] + typedWords;
      typedWordsIndexes := [|typedWords|] + typedWordsIndexes;
      SubmitColours();
      HistoryLettersCons(wordle, typedWord, rows0);
    }

    /** The loop of `SubmitWord`: each letter of the guess is appended to the
        green, yellow or gray list, as `letter_colour` classifies it. */
    method SubmitColours()
      requires |wordle| >= WORD_LENGTH && |typedWord| == WORD_LENGTH
      modifies this`greenLetters, this`yellowLetters, this`grayLetters
      ensures greenLetters == old(greenLetters) + LettersOf(wordle, typedWord, Green)
      ensures yellowLetters == old(yellowLetters) + LettersOf(wordle, typedWord, Yellow)
      ensures grayLetters == old(grayLetters) + LettersOf(wordle, typedWord, Gray)
    {
      var i := 0;
      while i < |typedWord|
        invariant 0 <= i <= |typedWord|
        invariant greenLetters == old(greenLetters) + LettersOf(wordle, typedWord[..i], Green)
        invariant yellowLetters == old(yellowLetters) + LettersOf(wordle, typedWord[..i], Yellow)
        invariant grayLetters == old(grayLetters) + LettersOf(wordle, typedWord[..i], Gray)
      {
        var letter := typedWord[i];
        if letter == [wordle[i]] {
          greenLetters := greenLetters + [letter];
        } else if Contains(wordle, letter) {
          yellowLetters := yellowLetters + [letter];
        } else {
          grayLetters := grayLetters + [letter];
        }
        assert typedWord[..i + 1][..i] == typedWord[..i];
        i := i + 1;
      }
      assert typedWord[..i] == typedWord;
    }
  }

  /** Putting a full, unsolved-so-far guess at the front of the history keeps
      every row full, the attempt numbers counting down to 1, and no guess
      but the newest equal to the target. */
  lemma HistoryAfterGuess(wordle: string, row: seq<string>, rows: seq<seq<string>>, indexes: seq<nat>)
    requires IsFullRow(row)
    requires forall k :: 0 <= k < |rows| ==> IsFullRow(rows[k])
    requires |indexes| == |rows| && CountsDown(indexes)
    requires forall k :: 0 <= k < |rows| ==> Join(rows[k]) != wordle
    ensures forall k :: 0 <= k < |rows| + 1 ==> IsFullRow(([row] + rows)[k])
    ensures CountsDown([|rows| + 1] + indexes)
    ensures forall k :: 1 <= k < |rows| + 1 ==> Join(([row] + rows)[k]) != wordle
  {
    forall k | 1 <= k < |rows| + 1
      ensures ([row] + rows)[k] == rows[k - 1] && ([|rows| + 1] + indexes)[k] == indexes[k - 1]
    {
    }
  }

  /** Typing through `Update`: nothing can be submitted yet, the first
      letter starts the clock and is lower-cased, and a delete takes back the
      last letter but not the clock. */
  method TypingExample(now: int)
  {
    var game := new Twordle(Unlimited, ["crane"], PickWord.GAME_START_DATE, "apple", now);
    var changed := game.Update(SubmitWord, now);
    assert !changed;
    changed := game.Update(AddLetter('A'), now + 1000);
    assert changed && game.gameStarted && game.timeStarted == now + 1000 && game.typed == "a";
    changed := game.Update(AddLetter('x'), now + 2000);
    changed := game.Update(DeleteLetter, now + 3000);
    assert changed && game.typed == "a" && game.timeStarted == now + 1000;
  }

  /** A sixth letter does not fit and changes nothing. */
  method FullBufferExample(game: Twordle, now: int)
    requires game.Valid() && !game.solved && |game.typed| == WORD_LENGTH
    modifies game
  {
    ghost var before := game.typedWord;
    var changed := game.Update(AddLetter('f'), now);
    assert !changed && game.typedWord == before;
  }

  /** Submitting through `Update`: a full guess equal to the target solves
      the game, and from then on every message is ignored. */
  method SolveExample(game: Twordle, now: int)
    requires game.Valid() && !game.solved && game.wordle == "apple" && game.typed == "apple"
    requires game.typedWords == []
    modifies game
  {
    assert game.typedWord == ["a", "p", "p", "l", "e"];
    var changed := game.Update(SubmitWord, now);
    assert changed && game.solved && game.typedWords == [["a", "p", "p", "l", "e"]];
    assert game.typedWordsIndexes == [1] && game.typed == [];
    changed := game.Update(AddLetter('z'), now);
    assert !changed && game.typed == [];
  }
}
