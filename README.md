# Twordle game engine and daily word picker, in Dafny

This project models the logic of Twordle, a Wordle-style game written in Rust
with the Yew framework. It covers two parts:

- The game engine (`src/app.rs`). This is the `Twordle` component's `update`
  state machine with its three messages `AddLetter`, `DeleteLetter` and
  `SubmitWord`, and the pure helpers around it: `letter_colour`, `key_colour`,
  `format_time_from_now`, `generate_score` and `handle_keypress`.
- The daily word picker (`src/pick_word.rs`). `get_index` counts the days from
  2023-01-01 to today with a step loop, and `gen` picks `word_list[index % len]`.

The files are:

- `text.dfy` (module `Text`): the Rust standard-library behaviour the game
  relies on, written out. This covers `join("")`, `str::contains`, the UTF-8
  byte length behind `str::len`, chrono's truncating `num_seconds` and
  `num_minutes`, and decimal formatting.
- `pick_word.dfy` (module `PickWord`): `GetIndex` is a `while` loop like the
  source's. It is proved equal to the closed form `DaysSinceStart`. `Gen` and
  the lemmas about which word each day gets are also here.
- `app.dfy` (module `App`): the classification functions, the keyboard
  colours, the time and score functions, the key handler, and the `Twordle`
  class.

`Twordle` keeps the source's fields. Its methods update them in place:
`typedWord` (the five slots), `typedWords` (the history, newest first),
`typedWordsIndexes`, the three colour lists, `solved`, `gameStarted` and
`timeStarted`. A ghost field `typed` holds the letters in the buffer. The
object invariant `Valid()` states the following:

- the buffer is always `Slots(typed)`: five slots, and the filled ones form a prefix;
- every history row is five one-letter slots;
- the attempt numbers read n, n−1, …, 1;
- each colour list is exactly the letters of that colour over the history, oldest guess first;
- `solved` holds exactly when the newest guess equals the target, and no older guess does;
- nothing has been typed or submitted before the clock starts.

Time and dates are parameters. `now` is an integer number of milliseconds.
Dates are day ordinals, counted in days since 1970-01-01, so 2023-01-01 is
19358. Elapsed times are `now - timeStarted` in milliseconds.

Three behaviours worth knowing:

- `format_time_from_now` prints the total number of seconds, not the seconds
  left over after the whole minutes. See Findings.
- `format_time_from_now` and `generate_score` read the clock when the view
  renders, not at the moment the game is solved. Yew re-renders after an
  `update` that returns true, so the time and score are worked out on the
  render right after the solving `SubmitWord`. From then on `update` returns
  false, and they stay as shown until a route switch re-renders the
  component. The model takes the clock reading `now` as a parameter
  (`Twordle.TimeFromNow`, `Twordle.Score`).
- `gen` takes the word index modulo the length of the word list, which
  divides by zero on an empty list, and `create` calls `gen` in both modes.
  `Gen` and the constructor therefore require a non-empty list.

The client methods `TypingExample`, `FullBufferExample` and `SolveExample`
drive a game through `Update` using only the contracts. They show that nothing
can be submitted before five letters are typed, and that the first letter
starts the clock and is lowercased. They also show that a delete takes back
the last letter but not the clock, and that a sixth letter changes nothing.
Finally, they show that submitting the target solves the game and that every
later message is ignored.

## Model

| member | source | states |
|---|---|---|
| PickWord.DaysSinceStart | src/pick_word.rs:3-15 | the closed form of `get_index`: no days on or before 2023-01-01, otherwise the start date plus the days is today |
| PickWord.GetIndex | src/pick_word.rs:3-15 | the day-stepping loop terminates and returns 0 on or before 2023-01-01, and otherwise the number of days since then (start date + index = today) |
| PickWord.DailyWord | src/pick_word.rs:21 | the word of the day is always an entry of the list |
| PickWord.Gen | src/pick_word.rs:17-22 | for a non-empty list, `gen` returns `word_list[days since start % len]`, which is in bounds |
| PickWord.DailyWordBeforeStart | src/pick_word.rs:5-14 | every date up to 2023-01-01 gets the first word |
| PickWord.DailyWordNextDay | src/pick_word.rs:3-22 | the day after any date on or after the start gets the word at `(index + 1) % len` |
| PickWord.DailyWordCycles | src/pick_word.rs:3-22 | `len` days later the same word comes back |
| PickWord.DailyWordChangesEachDay | src/pick_word.rs:3-22 | with two or more distinct words, the word changes at each new day |
| App.FindEmptyStringIndex | src/app.rs:87-89 | `position(is_empty)`: the result is an empty slot with every slot before it filled; None means every slot is filled |
| App.FindNonEmptyStringIndex | src/app.rs:100-102 | `rposition(!is_empty)`: the result is a filled slot with every slot after it empty; None means every slot is empty |
| App.FindEmptyInSlots | src/app.rs:90-97 | in a buffer, the leftmost empty slot is the one just after the typed letters, and there is none when five are typed |
| App.FindNonEmptyInSlots | src/app.rs:103-110 | in a buffer, the rightmost filled slot holds the last typed letter, and there is none when the buffer is empty |
| App.JoinSlots | src/app.rs:128 | joining the buffer's slots gives exactly the typed letters, so the solved test compares the guess with the target |
| App.ToLowercase | src/app.rs:93 | `to_lowercase` on a typed character: an ASCII capital becomes the matching small letter, anything else is kept, and the result is never a capital |
| App.LetterColour | src/app.rs:245-253 | `letter_colour`: never the unused-key colour; green exactly when the letter is the target's character at that position; yellow only for a letter that is not, and no longer than the target |
| App.LetterColourOfChar | src/app.rs:245-253 | a letter is green iff the target has it at that position, otherwise yellow iff the target contains it, otherwise gray, and never neutral |
| App.LetterColourExamples | src/app.rs:245-253 | target "apple": "apply" gives four greens and a gray; each "p" of "ppppp" is coloured, with no cap at the target's two "p"s |
| App.LettersOfPartition | src/app.rs:119-127 | each letter of a submitted guess goes to exactly one of the green, yellow and gray lists (as multisets) |
| App.LettersOfSpec | src/app.rs:119-127 | a letter is appended to a colour's list iff some position of the guess has that letter with that colour under `letter_colour` |
| App.HistoryLettersSpec | src/app.rs:117-127 | a letter is in a colour's list iff some guess in the history has it at a position of that colour |
| App.HistoryLettersCons | src/app.rs:117-127 | a new guess at the front of the history adds its letters at the back of each colour's list |
| App.KeyColour | src/app.rs:254-264 | `key_colour`: green exactly when the letter is in the green list; unused exactly when it is in none of the three lists |
| App.KeyColourMonotone | src/app.rs:254-264 | when the three lists only grow, a key's colour never drops in rank (green > yellow > gray > unused) |
| App.KeyColourOfHistory | src/app.rs:254-264 | a key is green iff the letter was green somewhere on the board; yellow iff never green but yellow somewhere; gray iff only gray; unused iff never guessed |
| App.FormatTimeFromNow | src/app.rs:266-292 | `format_time_from_now` as written: under a second it prints the milliseconds, under a minute the whole seconds |
| App.FormatTimeFromNowPastAMinute | src/app.rs:266-292 | from one minute on, the message always has a seconds clause holding the total number of seconds (at least 60), so the "seconds == 0" branches are never taken |
| App.FormatTimeFromNowExample | src/app.rs:280-285 | 75 s is rendered "1 minute and 75 seconds" |
| App.FormatTimeFromNowTwoMinutes | src/app.rs:286-291 | 120 s is rendered "2 minutes and 120 seconds" |
| App.FormatElapsed | src/app.rs:266-292 | corrected message: under a second the milliseconds, under a minute the whole seconds, the same as the code as written |
| App.FormatElapsedParts | src/app.rs:266-292 | corrected message: minutes times 60 plus the leftover seconds gives the elapsed seconds, the leftover is under 60, and the seconds clause appears exactly when the leftover is not zero |
| App.FormatElapsedExample | src/app.rs:280-285 | corrected message: 75 s reads "1 minute and 15 seconds" |
| App.FormatElapsedTwoMinutes | src/app.rs:286-291 | corrected message: 120 s reads "2 minutes" |
| App.GenerateScore | src/app.rs:295-301 | the score is always in [1, 100] and equals 100 − (seconds + guesses) whenever that is in range |
| App.GenerateScoreMonotone | src/app.rs:295-301 | more time or more guesses never raise the score |
| App.GenerateScoreExamples | src/app.rs:295-301 | 10 s with 2 guesses scores 88; 200 s with 5 guesses scores 1 |
| App.IsAlphabetic | src/app.rs:313 | `is_alphabetic` on a one-byte key: true exactly for the characters that lowercase to a small ASCII letter |
| App.HandleKeypress | src/app.rs:304-319 | `handle_keypress`: an `AddLetter(c)` result comes only from the key that is exactly the alphabetic character c |
| App.HandleKeypressSpec | src/app.rs:304-319 | Backspace maps to DeleteLetter and Enter to SubmitWord; a key maps to AddLetter(c) iff it is the single ASCII letter c; every other key maps to None |
| App.Twordle.constructor | src/app.rs:49-75 | the target is the daily word (or the given random word in unlimited mode); the game is unsolved and not started; the buffer has five empty slots; history and colour lists are empty |
| App.Twordle.Score | src/app.rs:295-301 | `generate_score` on the game: between 1 and 100, and 100 less the seconds since the clock started and the number of guesses submitted, when that is in range |
| App.Twordle.TimeFromNow | src/app.rs:266-292 | `format_time_from_now` on the game: from one minute after the clock started, the message carries the total seconds since then |
| App.Twordle.Update | src/app.rs:77-141 | once solved, every message returns false and changes nothing; otherwise the message's effect below; the history only grows at the front; the colour lists only grow at the back; no key's colour drops in rank |
| App.Twordle.HandleAddLetter | src/app.rs:82-98 | the first letter starts the clock; the lowercased letter fills the leftmost empty slot and no other slot changes; a full buffer returns false and is unchanged |
| App.Twordle.HandleDeleteLetter | src/app.rs:99-111 | clears exactly the rightmost filled slot; an empty buffer returns false; nothing else changes |
| App.Twordle.HandleSubmitWord | src/app.rs:112-139 | with any empty slot, returns false and changes nothing; otherwise records the guess as RecordGuess states and returns true |
| App.Twordle.RecordGuess | src/app.rs:117-138 | the guess goes to the front of the history with the new history length as its attempt number; its letters are appended to the colour lists; solved iff the guess equals the target; the buffer is reset to five empty slots |
| App.Twordle.PushGuess | src/app.rs:117-127 | the full guess goes to the front of the history with the new history length as its attempt number, its letters are appended to the colour lists, and the history part of the invariant is kept |
| App.Twordle.SubmitColours | src/app.rs:119-127 | the classification loop appends each letter of the guess, in order, to the green, yellow or gray list exactly as `letter_colour` classifies it |
| Text.Join | src/app.rs:128 | `join("")` of one-character slots has one character per slot |
| Text.Contains | src/app.rs:122 | `str::contains`: the empty pattern is always found, and a pattern longer than the string never is |
| Text.ContainsChar | src/app.rs:122 | `contains` with a one-letter pattern is membership of that letter |
| Text.Utf8Len | src/app.rs:311 | `str::len` counts UTF-8 bytes: at least one and at most four per character |
| Text.Utf8LenOne | src/app.rs:311 | `len() == 1` (bytes) holds exactly for a single ASCII character |
| Text.TruncDiv | src/app.rs:271-272 | chrono's whole seconds and minutes round toward zero |
| Text.NatToString | src/app.rs:277-290 | `format!("{}", n)` of a natural number: at least one character, all decimal digits, no leading zero unless the number is 0 |
| Text.IntToString | src/app.rs:277-290 | `format!("{}", i)` of an `i64`: non-empty, starting with a minus sign exactly when the number is negative |
| Text.DecimalValueOfNatToString | src/app.rs:277-290 | the digits printed for a number read back as that number |

## Left out

- Rendering is not modelled: `view`, `rendered` and its keydown `EventListener`, the title string, the HTML and CSS classes. Colours are the datatype `Colour` instead of the class strings.
- `src/main.rs` (router and bootstrap) and `tailwind.config.js` (styling) are not part of this model.
- Real clocks and chrono's calendar are not modelled. `Utc::now`, `Local::now` and `NaiveDate` become integer parameters: milliseconds and day ordinals.
- `pick_word::unlimited` is not part of this model; it picks a word at random. The unlimited word is a constructor parameter.
- Loading the word list with `include_str!` is not modelled. The list is a parameter.
- App.GenerateScore: works on integers instead of `f64`, which is exact here because the value is integral.
- App.ToLowercase: lowercases ASCII letters only. Rust's full Unicode `to_lowercase`, which can produce several characters, is not modelled. Only ASCII letters reach `AddLetter`, from the on-screen keys and from `handle_keypress`.
- App.IsAlphabetic: is exact only for ASCII. `HandleKeypressSpec` shows that only one-byte (ASCII) keys are ever tested.
- `KeyboardEvent` is reduced to its `key()` string. Yew's `batch_callback` plumbing is not modelled.
- PickWord.GetIndex: the `usize` index is an unbounded `nat`. In a browser build `usize` is 32 bits wide, but chrono's `NaiveDate` ends near the year 262 000, so the index stays below about 9.5×10^7 days and cannot overflow.
- App.Twordle.constructor: requires the target it keeps to have at least five characters. With a shorter target, the source panics at `nth(i).unwrap()` (src/app.rs:120 and src/app.rs:246) when a full guess is submitted or coloured; that panic is not modelled.
- App.Twordle.SubmitColours: the classification loop inside `update` is a separate method that changes only the three colour lists. `SubmitWord` is split into `HandleSubmitWord`, `RecordGuess` and `PushGuess`. The behaviour is the same.

## Findings

| source | as written | input that shows it | evidently intended | confidence | as-written member | corrected member |
|---|---|---|---|---|---|---|
| src/app.rs:272-291 | the seconds clause prints `num_seconds()`, the total elapsed seconds, so at or past one minute the seconds are never 0 and the "1 minute" / "N minutes" branches are dead | 75 000 ms gives "1 minute and 75 seconds"; 120 000 ms gives "2 minutes and 120 seconds" | print the seconds left over after the whole minutes (`num_seconds() % 60`): "1 minute and 15 seconds", "2 minutes" | high; not executed | App.FormatTimeFromNowExample | App.FormatElapsedParts |
