# A Dafny model of the game logic of multilangwordle

multilangwordle is a Wordle clone in English, Spanish and French. An Express server picks
a word of the day per language from its word lists, checks guesses against those lists,
stores each player's daily results and reports per-language statistics. A React board
takes letters, marks each submitted row against the day's word and colours the on-screen
keyboard. This project models that logic and proves what it promises.

| file | module | models |
|---|---|---|
| `Wrappers.dfy` | `Wrappers` | `Option` and `Result` |
| `Text.dfy` | `Text` | JavaScript `trim` and `toLowerCase` |
| `WordBank.dfy` | `WordBank` | word-list loading, the word of the day, guess validation |
| `Records.dfy` | `Records` | the `results` table: the upsert of a result and the listing of a user's rows |
| `Stats.dfy` | `Stats` | the statistics handler: filter, count, sort by date, longest winning streak |
| `Evaluation.dfy` | `Evaluation` | the two-pass marking of a guess |
| `KeyColors.dfy` | `KeyColors` | the keyboard-colour update |
| `Board.dfy` | `Board` | the board as a class: typing, deleting and submitting a row |

Two parts are pure and become functions: the word lists with the day word and validation,
and the upsert. Three parts work by mutation and become methods:

- The statistics handler sorts an array of rows in place and walks it with two counters.
- The marking nulls answer slots in an array over two index loops. It is proved equal to
  `Reference`, a definition of the marks that does not use passes.
- The key colours are a map updated in a loop.

The board is a class whose fields are the React state variables. Its methods change them
as the source's handlers do.

## Model

| member | source | states |
|---|---|---|
| Text.LowerChar | frontend/src/components/Game.jsx:22 | Lower-casing maps A-Z and the Latin-1 capitals to the character 32 positions above; every other character is unchanged; the result is never a capital and white space is preserved |
| Text.Lower | backend/server.js:173 | `toLowerCase` keeps the length and lower-cases each character in place |
| Text.LowerIdempotent | backend/server.js:173 | Lower-casing twice gives the same string as lower-casing once |
| Text.LowerOfLower | backend/server.js:37 | A string without capitals is its own lower case |
| Text.TrimStart | backend/server.js:37 | The result is a suffix of the input; everything dropped is white space; the result is empty or starts with a non-space |
| Text.TrimEnd | backend/server.js:37 | The result is a prefix of the input; everything dropped is white space; the result is empty or ends with a non-space |
| Text.Trim | backend/server.js:37 | The trimmed string neither starts nor ends with white space |
| Text.TrimOfTrimmed | backend/server.js:37 | A string with no white space at either end is left unchanged by trim |
| WordBank.SplitLines | backend/server.js:36 | Splitting on `\r?\n` yields one more line than the text has line feeds, and no line contains a line feed |
| WordBank.SplitLinesJoin | backend/server.js:36 | Joining the lines with line feeds gives the text back, with each CR LF pair turned into a line feed |
| WordBank.JoinLinesInjective | backend/server.js:36 | Two lists of lines without line feeds that join to the same text are equal |
| WordBank.SplitLinesUnique | backend/server.js:36 | The split is the only list of lines without line feeds that joins to the text |
| WordBank.Normalise | backend/server.js:37 | Trim plus lower-case never lengthens a line, and a non-empty result is a normal word: no white space at either end, no capitals |
| WordBank.MapNonEmpty | backend/server.js:37-38 | Mapping then dropping empty strings leaves only non-empty words |
| WordBank.MapNonEmptyAppend | backend/server.js:37-38 | One more line appends its image to the end of the list when that image is non-empty, and nothing otherwise, so the words keep the order of the lines |
| WordBank.NormalFixed | backend/server.js:37 | A normal word is unchanged by trim plus lower-case, and by lower-case alone |
| WordBank.NormaliseIdempotent | backend/server.js:37 | Normalising a line twice gives the same word as normalising it once |
| WordBank.MapNonEmptyKeeps | backend/server.js:37-38 | A value is in the mapped-and-filtered list exactly when it is non-empty and is the image of some line |
| WordBank.LoadWords | backend/server.js:34-38 | Every loaded word is normal, and a word is loaded exactly when some line normalises to it |
| WordBank.LoadBank | backend/server.js:31-39 | The bank has exactly the keys en, es and fr, and every list in it holds only normal words |
| WordBank.DayWord | backend/server.js:147-161 | The lookup `WORDS[lang]` on a plain object also finds the names every object inherits. An unknown language is a 400 error exactly when the name is neither a key of the bank nor an inherited name. An empty list or an inherited name gives a reply with no word, and only those do. Any word returned belongs to the language's list |
| WordBank.DayWordPeriodic | backend/server.js:156-160 | The day word is the list entry at `daysSince % length`, and the same word comes back every `length` days |
| WordBank.EveryWordHasItsDay | backend/server.js:158-160 | In any window of `length` consecutive days, every entry of a list is the day word on a day whose count leaves the entry's index as remainder |
| WordBank.DayIndexUnique | backend/server.js:158 | Two days of one window of `length` days with the same remainder are the same day, so each entry has exactly one day in the window |
| WordBank.Validate | backend/server.js:166-177 | An unknown language is a 400 error exactly when the name is neither a key of the bank nor an inherited name. An inherited name that is not a key fails with a server error, because it has no `includes` to call. Otherwise the guess is valid exactly when its lower case is in the list |
| WordBank.ValidateIgnoresCase | backend/server.js:173-174 | A guess and its lower case validate alike |
| WordBank.ListedWordsValidate | backend/server.js:174 | In a bank of normal words, every listed word validates as true |
| WordBank.LoadedBankLanguages | backend/server.js:31-39 | With the loaded keys en, es and fr, the day word is an error exactly for a name outside those three that is not inherited. An inherited name gets a reply with no word and fails validation with a server error |
| WordBank.DayWordValidates | backend/server.js:158-174 | In a bank of normal words, the day word validates as true |
| Records.SaveResult | backend/server.js:182-203 | A request missing date, language, attempts or won is refused, and only such a request. Otherwise the key (user, date, language) is added if absent. It holds the new attempts and won as 1 or 0. Every other record is unchanged |
| Records.SaveResultIdempotent | backend/server.js:190-196 | Saving the same result twice leaves the table as saving it once |
| Records.SaveResultKeepsFlags | backend/server.js:195 | If every stored `won` is 0 or 1 before a save, it still is after |
| Records.ListsUserRows | backend/server.js:210-213 | A listing of a user's results holds each of the user's records exactly once |
| Records.UserRowsHaveDistinctDates | backend/server.js:191-193 | Two of a user's listed rows with the same language and date are the same row |
| Records.ListingsArePermutations | backend/server.js:210-213 | Any two listings of a user's rows hold the same rows, whatever their order |
| Stats.OfLanguage | backend/server.js:218 | The filtered list holds each row of the language as often as the input does, and nothing else |
| Stats.CountWins | backend/server.js:219 | The win count never exceeds the number of rows |
| Stats.DateLe | backend/server.js:225 | `localeCompare(a, b) <= 0` as lexicographic order: `a` is a prefix of `b`, or at the first position where they differ `a` has the smaller character |
| Stats.DateLeTotal | backend/server.js:225 | Any two dates are ordered one way or the other |
| Stats.DateLeTransitive | backend/server.js:225 | The date order is transitive |
| Stats.DateLeAntisymmetric | backend/server.js:225 | Two dates ordered both ways are equal |
| Stats.SortByDate | backend/server.js:224-225 | After the sort the array is ordered by date and holds the same rows as before |
| Stats.LongestStreak | backend/server.js:221-233 | The counter walk returns the length of the longest run of consecutive wins: some run has that length and none is longer |
| Stats.LanguageStats | backend/server.js:218-239 | total is the number of rows of the language; wins is the number of those won; maxStreak is the longest winning run of those rows sorted by date |
| Stats.ComputeStats | backend/server.js:215-240 | The result has exactly the keys en, es and fr, and each entry holds that language's statistics |
| Stats.CountWinsPermutation | backend/server.js:219 | The win count does not depend on the order of the rows |
| Stats.LongestWinRunUnique | backend/server.js:221-233 | The longest winning run of a sequence has one length |
| Stats.StatsBounds | backend/server.js:219-238 | wins never exceeds total, maxStreak never exceeds wins, and maxStreak is 0 exactly when wins is 0 |
| Stats.NoRowsNoStats | backend/server.js:217-240 | A language without rows reports 0 total, 0 wins and 0 maxStreak |
| Stats.SortedPermutationUnique | backend/server.js:225 | Two date-sorted arrangements of the same rows with distinct dates are identical |
| Stats.StatsIgnoreRowOrder | backend/server.js:210-240 | When a language's rows have distinct dates, its statistics do not depend on the order in which the database returns the rows |
| Stats.StoredStatsAreDeterminate | backend/server.js:191-240 | The statistics computed from any listing of a user's stored results are the same |
| Stats.StreakExample | backend/server.js:221-233 | Rows dated 2024-01-01 to 2024-01-04 with outcomes win, win, loss, win give total 4, wins 3 and maxStreak 2, in whatever order they arrive |
| Evaluation.Reference | frontend/src/components/Game.jsx:107-124 | One mark per guess letter; a position is marked correct exactly when it matches the answer letter there |
| Evaluation.IndexOf | frontend/src/components/Game.jsx:119 | `indexOf` returns -1 exactly when the value is absent; otherwise it returns the first index holding it |
| Evaluation.EvaluateGuess | frontend/src/components/Game.jsx:107-124 | The two passes produce exactly the reference marks |
| Evaluation.MarkExact | frontend/src/components/Game.jsx:111-116 | After the first pass the exact matches are correct, the rest absent, and exactly the matched answer slots are nulled |
| Evaluation.MarkPresent | frontend/src/components/Game.jsx:117-124 | The second pass turns the first pass's marks into the reference marks |
| Evaluation.MarkPosition | frontend/src/components/Game.jsx:118-123 | One round of the second pass gives the position its reference mark. The slots left for each letter are its spare occurrences less the misses claimed so far |
| Evaluation.UnmatchedCount | frontend/src/components/Game.jsx:111-116 | After the first pass, the slots holding a letter are its occurrences in the answer minus its exact matches |
| Evaluation.PresenceStep | frontend/src/components/Game.jsx:119-123 | A miss finds a slot for its letter exactly when the reference marks it present; nulling the first such slot uses up exactly one occurrence |
| Evaluation.CorrectCount | frontend/src/components/Game.jsx:111-116 | The positions of a letter marked correct are its exact matches |
| Evaluation.PresentCount | frontend/src/components/Game.jsx:117-124 | The positions of a letter marked present are its misses, capped at its unmatched occurrences in the answer |
| Evaluation.CreditBound | frontend/src/components/Game.jsx:107-124 | For every letter, correct plus present marks on it never exceed its occurrences in the answer |
| Evaluation.AbsentExhausts | frontend/src/components/Game.jsx:119-123 | If a position is absent, the correct plus present marks on its letter equal the letter's occurrences in the answer |
| Evaluation.PresentLeftmost | frontend/src/components/Game.jsx:117-123 | Among non-matching positions with the same letter, present marks go to the leftmost ones |
| Evaluation.PresentOccurs | frontend/src/components/Game.jsx:119-121 | A letter marked present occurs in the answer |
| Evaluation.AllCorrectIffAnswer | frontend/src/components/Game.jsx:111-116 | A guess as long as the answer is all correct exactly when it equals the answer |
| Evaluation.DuplicateLettersExample | frontend/src/components/Game.jsx:107-124 | "eeeee" against "apple" is absent at positions 0 to 3 and correct at position 4 |
| KeyColors.ColorOf | frontend/src/components/Game.jsx:135-140 | A correct mark gives the highest-ranked colour, green, and an absent mark the lowest, grey |
| KeyColors.Rank | frontend/src/components/Game.jsx:130 | The `order` table: every colour ranks from 1 to 3 with green highest and grey lowest, above the 0 of a key without a colour |
| KeyColors.UpdateKeyColors | frontend/src/components/Game.jsx:130-143 | The keys become the old keys plus the guessed letters. Each key's rank becomes the larger of its old rank and its best rank in this row, so no key loses rank. Keys not guessed keep their colour |
| KeyColors.RowRankIsBest | frontend/src/components/Game.jsx:130-142 | The row rank of a letter is at least the rank of every position holding it. A row holding the letter attains it at one position; otherwise it is 0 |
| KeyColors.GreenKeys | frontend/src/components/Game.jsx:136-141 | A key is green afterwards exactly when it was green before or the row matched that letter exactly |
| Board.Put | frontend/src/components/Game.jsx:75-76 | Writing one cell changes that cell and no other |
| Board.PutUndo | frontend/src/components/Game.jsx:75-85 | Writing a cell back to its old content restores the grid |
| Board.RowWord | frontend/src/components/Game.jsx:92 | Joining a full row gives a word of the row's length with the row's letters in order |
| Board.GuessOf | frontend/src/components/Game.jsx:92 | The guess has one character per letter of the row and no capitals; for a full row each character is the lower case of the typed letter |
| Board.Game.constructor | frontend/src/components/Game.jsx:8-33 | A new board is valid: blank grid, no marks, cursor at (0, 0), playing, no key colours. The answer is the fetched word lower-cased, or empty if none came |
| Board.Game.AddLetter | frontend/src/components/Game.jsx:72-79 | Nothing changes once the game is over or the row is full. Otherwise only the cell under the cursor takes the letter and the cursor moves right. The board stays valid |
| Board.Game.Del | frontend/src/components/Game.jsx:81-88 | Nothing changes once the game is over or the row is empty. Otherwise only the cell left of the cursor is cleared and the cursor moves left. The board stays valid |
| Board.Game.Submit | frontend/src/components/Game.jsx:90-181 | A short row, a refused validation or a failed one changes nothing. Otherwise: the row gets the reference marks; the key colours are raised. Then a guess equal to the answer wins with attempts row + 1 (between 1 and 6). Otherwise the sixth row loses with attempts 7, and any other row moves to the next row at column 0. The board stays valid |
| Board.AddThenDel | frontend/src/components/Game.jsx:72-88 | Typing a letter into a blank cell and deleting it restores the grid |
| Board.GuessIgnoresCase | frontend/src/components/Game.jsx:92 | The guess compared with the answer does not depend on the case in which the row was typed |
| Board.TypedCapitalsNeverMatch | frontend/src/components/Game.jsx:112 | A row compared as typed, with a capital at some position, never equals a lower-case answer and is never correct at that position |
| Board.OnScreenAppleAsTyped | frontend/src/components/Game.jsx:92-146 | "APPLE" validates against a list holding "apple", yet compared as typed it equals no lower-case answer and no position is correct |
| Board.TypedAnswerWins | frontend/src/components/Game.jsx:146 | A full row whose lower case is the answer is all correct and is a win |

## Left out

- HTTP routing, CORS, status codes and JSON shaping are not modelled. An HTTP 400 reply and a network failure both reach `Board.Game.Submit` as a `reply` of None.
- Registration, login, bcrypt hashing, JWT signing and the `auth` middleware are not modelled: they are foreign cryptographic libraries.
- The sqlite promise wrappers and backend/migrate.js are not modelled. The results table is a map keyed by (user, date, language), and the `SELECT` is a listing of the user's entries in any order.
- Reading the word files is I/O. `WordBank.LoadBank` takes the file contents as strings.
- Date arithmetic is not modelled (`new Date`, the local time zone, `Math.floor` over milliseconds, `toISOString`). `WordBank.DayWord` takes the day count as a natural number. JavaScript `%` on a negative count would give a negative index, which the `nat` parameter excludes.
- An empty word list makes the server index with `NaN` and reply with no word. `WordBank.DayWord` returns `Ok(None)` for it.
- Text.Lower: case mapping is modelled for Basic Latin and the Latin-1 Supplement only. That covers every key of the three keyboard layouts; other characters are left unchanged rather than mapped by the full Unicode tables.
- Stats.DateLe: `localeCompare` is modelled as character-by-character lexicographic order, which agrees with collation on dates written YYYY-MM-DD. Locale-specific collation of other strings is not modelled.
- Stats.SortByDate: the engine's sort algorithm is not modelled. The model sorts by insertion, which may order rows of equal dates differently from the engine. `Stats.IsStatsOf` therefore allows any date-sorted arrangement. `Stats.StatsIgnoreRowOrder` shows the result is unique when a language's dates are distinct, which the table's key guarantees for stored rows.
- `fetchDefinition`, the dictionary lookup, `alert`, `localStorage` and the result `POST` made by `submit` are browser and network I/O. `Board.Game.Submit` returns the attempts the `POST` would carry as its outcome.
- The definition modal state, React rendering, the keydown listener, frontend/src/components/Keyboard.jsx (except as the source of capital letters, see Findings), App.jsx, Login.jsx, Stats.jsx and LanguageSelector.jsx are not modelled: they are UI only.
- Board.Game.Submit: like the source, it does not check the status. Resubmitting a finished game's full row re-marks it and reports the same outcome again.
- Board.Game.Submit: the method is atomic, but the source awaits the validation request (frontend/src/components/Game.jsx:94-105) and other handlers can run meanwhile. A Backspace during the wait runs `del`; the resumed submit then marks a row that is no longer full. A second Enter evaluates the row twice and, on a win, posts the result twice (lines 151-157). An answer that arrives after the board reset (lines 20-23) leaves rows submitted before it marked against '' or the previous language's word. The model takes the validation reply as a parameter and does not model these interleavings.
- Text: a Dafny `char` is a Unicode scalar value. A character outside the Basic Multilingual Plane is one `char` in the model, but two UTF-16 code units for `length` and `split('')` in the source (frontend/src/components/Game.jsx:107-108). The model does not cover such characters, none of which is on the keyboards.
- WordBank.DayWord: only the twelve names Object.prototype defines count as inherited. Names an engine adds beyond those are not modelled.

## Findings

| source | as written | input that shows it | evidently intended | confidence | as-written member | corrected member |
|---|---|---|---|---|---|---|
| frontend/src/components/Game.jsx:92-146 | The row is joined as typed and compared letter by letter, and as a whole, with the lower-cased answer. The on-screen keyboard sends capital letters. | Answer "apple", row typed on the on-screen keyboard as "APPLE": the server validates it, every position is marked absent, and the game is not won | Compare the lower-cased row, as the server's validation already does | not executed | Board.TypedCapitalsNeverMatch | Board.TypedAnswerWins |

The board model uses the corrected comparison. `Board.GuessOf` lower-cases the row before marking it and before the win check.
