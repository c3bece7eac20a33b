# A model of a puzzle-hunt (CTF) web game

The game is a sequence of puzzles played in the browser. A visitor registers a
name, solves levels one after another, and appears on a public leaderboard.
This project models the game's core logic in Dafny and proves properties of it:

- the Caesar cipher used by one puzzle (`lib/caesar.ts`);
- the answer validator and the answer-check endpoint;
- the client-side progress hook that clamps, saves and restores the level;
- the player, admin and leaderboard endpoints over the shared player dictionary;
- the maintenance script that edits that dictionary;
- the logic of three puzzle components: the adversarial number-guessing game
  (puzzle 7), the staircase counter (puzzle 8) and the substitution cipher
  (puzzle 9).

Modules follow the source files:

| module | file | source |
|---|---|---|
| `Wrappers` | wrappers.dfy | the `Option` type, used for JavaScript's `undefined`/`null`/NaN |
| `Js` | js.dfy | the JavaScript built-ins the code relies on: ASCII case mapping, `trim`, truncating `%`, `indexOf`, `replace` with a string pattern, `parseInt(_, 10)`, and dynamic JSON values with their truthiness |
| `Caesar` | caesar.dfy | lib/caesar.ts |
| `Validate` | validate.dfy | lib/validate.ts |
| `CheckRoute` | check_route.dfy | app/api/check/route.ts |
| `Progress` | progress.dfy | hooks/useProgress.ts |
| `Players` | players.dfy | the player record and the dictionary the routes load and write back |
| `PlayerRoute` | player_route.dfy | app/api/player/route.ts |
| `AdminRoute` | admin_route.dfy | app/api/admin/players/route.ts |
| `Leaderboard` | leaderboard.dfy | app/api/players/route.ts |
| `EditPlayers` | edit_players.dfy | scripts/edit-players.js |
| `Challenge7`, `Challenge8`, `Challenge9` | challenge7.dfy, challenge8.dfy, challenge9.dfy | components/challenges/Challenge7.tsx, Challenge8.tsx, Challenge9.tsx |

Where the source changes state step by step, the model does too:

- The Caesar loops are methods with loop invariants. They are proved against
  recursive functions, `Encrypt` and `Decrypt`.
- The progress hook and the guessing game are classes whose methods update
  their fields. The game's method is proved equal to a pure `Step`
  function.
- The routes and the script change a `Store` object, whose field `players`
  is the dictionary.
- The staircase counter fills an array.

Pure code is modelled as functions.

The source and its comments disagree in one place. The Caesar functions
document a shift of 0 to 25, but the code accepts any number. A negative
shift makes `%` negative, so the code appends `alphabet[-k]`, which is
`undefined`. The model follows the code: `Caesar.EncryptNegativeShift` shows
that encrypting "A" by -1 gives the text "undefined".

The answer-check endpoint replies with `correct` only. The catalog size that
`validateAnswer` also returns never reaches the client.

## Model

| member | source | states |
|---|---|---|
| Js.Rem | lib/caesar.ts:9 | JavaScript's `%`: the remainder has the dividend's sign and lies in (-b, 0] for a negative dividend; it agrees with the Euclidean remainder for a non-negative one |
| Js.UpperChar | lib/caesar.ts:14 | `toUpperCase` on one ASCII character: the result is never a lower-case letter; a lower-case letter moves up by 32; anything else is unchanged |
| Js.LowerChar | lib/validate.ts:9 | `toLowerCase` on one character: the mirror image of UpperChar |
| Js.ToUpper | lib/caesar.ts:14 | upper-casing a string keeps its length and maps each position by UpperChar |
| Js.ToLower | lib/validate.ts:9 | lower-casing a string keeps its length and maps each position by LowerChar |
| Js.AllSpace | lib/validate.ts:9 | definition: every character is whitespace, written by recursion; AllSpaceAt gives the per-index reading |
| Js.AllSpaceAt | lib/validate.ts:9 | the recursive AllSpace holds exactly when every index of the string holds whitespace |
| Js.AllSpaceConcat | lib/validate.ts:9 | a concatenation is all whitespace exactly when both parts are |
| Js.TrimStart | lib/validate.ts:9 | the result is a suffix of the input that does not start with whitespace, and everything cut off is whitespace |
| Js.TrimEnd | lib/validate.ts:9 | the result is a prefix of the input that does not end with whitespace, and everything cut off is whitespace |
| Js.TrimEndStep | lib/validate.ts:9 | helper of TrimEnd: one more trailing space keeps the result a prefix with only whitespace cut off |
| Js.Trim | lib/validate.ts:9 | `trim()`: the result has no whitespace at either end, and is empty exactly when the input is all whitespace; TrimIsPiece places it in the input |
| Js.TrimIsPiece | lib/validate.ts:9 | `trim()` returns the contiguous piece of the input that starts right after the leading whitespace run (at the first non-space character) and is followed only by whitespace (PieceAt) |
| Js.TrimPiece | lib/validate.ts:9 | helper of Trim and TrimIsPiece: `trimEnd` after `trimStart` leaves a non-blank-ended piece between two whitespace runs, empty exactly for all-whitespace input |
| Js.PrefixOfSuffix | lib/validate.ts:9 | helper of TrimPiece: a prefix of a suffix of `s` is the slice of `s` at the suffix's offset, and what follows it in `s` follows it in the suffix |
| Js.TrimOfTrimmed | lib/validate.ts:9 | a string with no whitespace at either end trims to itself |
| Js.TrimStartOfSpace | lib/validate.ts:9 | leading whitespace does not change `trimStart` |
| Js.TrimEndOfSpace | lib/validate.ts:9 | trailing whitespace does not change `trimEnd` |
| Js.TrimStartEndOfSpace | lib/validate.ts:9 | trailing whitespace does not change `trimEnd(trimStart(s))` |
| Js.TrimPadding | lib/validate.ts:9 | whitespace added on both sides does not change `trim()` |
| Js.TrimOfSameParts | lib/validate.ts:9 | helper of TrimPadding: strings whose `trimStart` then `trimEnd` agree have the same `trim()` |
| Js.TrimStartUpToCase | lib/validate.ts:9 | strings equal up to letter case trim their start alike, up to case |
| Js.TrimEndUpToCase | lib/validate.ts:9 | strings equal up to letter case trim their end alike, up to case |
| Js.TrimLowerUpToCase | lib/validate.ts:9 | strings equal up to letter case have the same `trim().toLowerCase()` |
| Js.OccursAtTail | app/api/admin/players/route.ts:27 | an occurrence of the pattern in the tail is one position further on in the whole string, and conversely |
| Js.IndexOf | app/api/admin/players/route.ts:27 | `indexOf`: the result is an occurrence of the pattern with none before it; no result means the pattern occurs nowhere |
| Js.ReplaceFirst | app/api/admin/players/route.ts:27 | `replace` with a string pattern: without an occurrence the input is returned; otherwise the FIRST occurrence (one with none before it) is replaced by the replacement and the rest is kept |
| Js.DigitPrefix | scripts/edit-players.js:69 | the longest prefix made of decimal digits: every character is a digit, and the next one is not |
| Js.ParseInt | scripts/edit-players.js:69 | `parseInt(_, 10)`, skipping whitespace and one sign: an all-whitespace (or empty) string is NaN; its other cases (leading space, digit, minus, plus, anything else) are the ParseInt lemmas below |
| Js.ParseIntAfterTrimStart | scripts/edit-players.js:69 | the whitespace `parseInt` skips is exactly what `trimStart` removes: parseInt reads the sign and digits of `trimStart(s)` |
| Js.TrimStartOfNonSpace | lib/validate.ts:9 | a string that starts with a non-space character is its own `trimStart` |
| Js.ParseIntAfterSpace | scripts/edit-players.js:69 | `parseInt` skips a leading whitespace character |
| Js.ParseIntUnsigned | scripts/edit-players.js:69 | a string starting with a digit parses to the value of its digit prefix |
| Js.ParseIntAfterMinus | scripts/edit-players.js:69 | a leading minus sign negates the digits after it; with no digits the result is NaN |
| Js.ParseIntAfterPlus | scripts/edit-players.js:69 | a leading plus sign is skipped and the digits after it are read; with no digits the result is NaN |
| Js.ParseIntNoDigits | scripts/edit-players.js:69 | a string starting with anything but whitespace, a sign or a digit is NaN |
| Js.SingleDigit | scripts/edit-players.js:69 | one digit reads as its own value |
| Js.TwoDigits | scripts/edit-players.js:69 | two digits followed by a non-digit read as a two-digit number |
| Js.ParseIntPlain | scripts/edit-players.js:69 | "7" parses to 7 |
| Js.ParseIntPrefix | scripts/edit-players.js:69 | " 12abc" parses to 12: leading whitespace and trailing garbage are ignored |
| Js.ParseIntNegative | scripts/edit-players.js:69 | "-3" parses to -3 |
| Js.ParseIntNaN | scripts/edit-players.js:69 | "abc" and "" are NaN |
| Caesar.Letter | lib/caesar.ts:8 | the letter at an alphabet index is an upper-case letter |
| Caesar.AlphabetAt | lib/caesar.ts:8 | the alphabet constant holds 26 letters, and its k-th letter is Letter(k) |
| Caesar.Pos | lib/caesar.ts:17 | `alphabet.indexOf(c)` for a letter: an index below 26 whose letter is c |
| Caesar.PosOfLetter | lib/caesar.ts:17 | indexOf inverts the alphabet lookup |
| Caesar.Encrypt | lib/caesar.ts:7-27 | definition: the concatenation of what each iteration appends; its properties are EncryptShape, RoundTrip and the lemmas below |
| Caesar.Decrypt | lib/caesar.ts:35-55 | definition: the concatenation of what each iteration appends; its properties are DecryptShape and RoundTrip |
| Caesar.CaesarEncrypt | lib/caesar.ts:7-27 | the loop's result equals `Encrypt(text, shift)` for every integer shift, negative ones included |
| Caesar.CaesarDecrypt | lib/caesar.ts:35-55 | the loop's result equals `Decrypt(ciphertext, shift)` for every integer shift |
| Caesar.ModShift | lib/caesar.ts:9-18 | reducing a non-negative shift by `%` first does not change the final index |
| Caesar.EncryptCharRotates | lib/caesar.ts:14-23 | with a non-negative shift, one iteration appends exactly one character: the rotated letter, or the character itself |
| Caesar.EncryptShape | lib/caesar.ts:13-24 | with a non-negative shift, encryption keeps the length and rotates position i by the shift |
| Caesar.DecryptShape | lib/caesar.ts:41-52 | for any shift, decryption keeps the length and shifts position i back by `shift % 26`; the index `(p - ns + 26) % 26` is always in range |
| Caesar.EncryptPassesThrough | lib/caesar.ts:20-23 | a character that is not a letter after upper-casing is copied unchanged |
| Caesar.EncryptIsUpperCase | lib/caesar.ts:14-19 | the ciphertext contains no lower-case letters |
| Caesar.EncryptRotatesLetter | lib/caesar.ts:16-19 | a letter at position i becomes the letter `(indexOf + shift % 26) % 26` |
| Caesar.EncryptAt | lib/caesar.ts:13-24 | position i of the ciphertext is the rotation of position i of the text |
| Caesar.RotatedLetter | lib/caesar.ts:16-19 | the rotation of a letter is the letter `(indexOf + shift % 26) % 26` |
| Caesar.EncryptPeriodic | lib/caesar.ts:9 | shifts that differ by 26 encrypt alike |
| Caesar.EncryptByZero | lib/caesar.ts:9-24 | a shift of 0 only upper-cases the text |
| Caesar.RotatedByZero | lib/caesar.ts:16-19 | rotating by 0 upper-cases one character |
| Caesar.EncryptNegativeShift | lib/caesar.ts:9-19 | a negative shift can make the index negative: "A" shifted by -1 encrypts to "undefined" |
| Caesar.UnshiftShift | lib/caesar.ts:18-46 | the decryption index undoes the encryption index |
| Caesar.UnrotateRotated | lib/caesar.ts:18-46 | decrypting one rotated character gives its upper-case form |
| Caesar.RoundTrip | lib/caesar.ts:7-55 | for a non-negative shift, decrypt(encrypt(text)) is the text upper-cased |
| Caesar.RoundTripExact | lib/caesar.ts:7-55 | the round trip is exact for text without lower-case letters |
| Caesar.RoundTripPhrase | lib/caesar.ts:7-55 | the puzzle's plaintext "ME GUSTA EL FERNET" survives the round trip for every non-negative shift |
| Validate.FindPuzzle | lib/validate.ts:5 | `find` by id: the result is the first catalog entry with that id, and there is none exactly when no entry has it |
| Validate.Normalized | lib/validate.ts:9 | `trim().toLowerCase()`: the result is empty exactly for an all-whitespace input, has no whitespace at either end and no upper-case letter |
| Validate.ValidateAnswer | lib/validate.ts:3-27 | `total` is the catalog size. An unknown id is never correct. Puzzle 3 accepts exactly the normalised Caesar plaintext. Puzzle 4 accepts exactly "pi" or the letter pi. Any other puzzle accepts an answer exactly when it normalises to the first matching entry's answer |
| Validate.IsCaesarAnswer | lib/validate.ts:12-15 | the fixed comparison for puzzle 3 holds exactly when the answer normalises to "me gusta el fernet" |
| Validate.IsPiAnswer | lib/validate.ts:18-21 | the comparison for puzzle 4 holds exactly for "pi" or the letter pi; the third alternative adds nothing |
| Validate.FirstIsUnique | lib/validate.ts:5 | the first entry with an id is unique |
| Validate.LowerOfPhrase | lib/validate.ts:13 | lower-casing "ME GUSTA EL FERNET" gives "me gusta el fernet" |
| Validate.NormalizedPhrase | lib/validate.ts:13 | normalising "ME GUSTA EL FERNET" gives "me gusta el fernet" |
| Validate.NormalizedPi | lib/validate.ts:20 | normalising "PI" gives "pi" |
| Validate.ValidateIgnoresPaddingAndCase | lib/validate.ts:9 | surrounding whitespace and ASCII letter case in a submission do not change the verdict |
| Validate.FirstDuplicateDecides | lib/validate.ts:5-26 | with a repeated id, the second entry's answer is accepted only if it normalises to the first entry's answer |
| Validate.CaesarIgnoresCatalog | lib/validate.ts:12-15 | for puzzle 3 the catalog's stored answer plays no part |
| CheckRoute.Post | app/api/check/route.ts:4-13 | a reply says `correct` only with status 200, for a numeric id that names a catalog puzzle; a mistyped id or answer is a 400 with `correct: false`; otherwise the verdict is the validator's |
| CheckRoute.StoredAnswerAccepted | app/api/check/route.ts:4-13 | a puzzle's stored answer, sent in other letter case and padded with whitespace, gets 200 with `correct: true` |
| CheckRoute.WrongAnswerIsOk | app/api/check/route.ts:11-12 | a wrong answer to a known puzzle is a 200 reply with `correct: false` |
| CheckRoute.NumberAnswerRefused | app/api/check/route.ts:7-9 | an answer sent as a number is refused with 400 |
| Progress.Clamp | hooks/useProgress.ts:23 | the clamped level lies in [1, totalLevels + 1], equals the input inside that range, and is the nearer bound outside it |
| Progress.Restored | hooks/useProgress.ts:11-20 | a stored level of at least 1 is taken, capped at totalLevels + 1; anything else (nothing stored, NaN, below 1) keeps the current level; a valid level stays valid |
| Progress.ProgressHook.constructor | hooks/useProgress.ts:8-9 | the first render shows level 1 and is not ready |
| Progress.ProgressHook.Restore | hooks/useProgress.ts:11-20 | the effect sets the level to Restored(storage, ...), marks the hook ready, and leaves storage alone |
| Progress.ProgressHook.UpdateLevel | hooks/useProgress.ts:22-26 | the shown level becomes Clamp(nextLevel) and the same value is saved |
| Progress.ProgressHook.Reset | hooks/useProgress.ts:28-30 | reset shows and saves level 1 |
| Progress.ClampIdempotent | hooks/useProgress.ts:23 | clamping twice is clamping once |
| Progress.SaveThenRestore | hooks/useProgress.ts:11-26 | what updateLevel saves is exactly what a later restore loads |
| Progress.RestoreCapped | hooks/useProgress.ts:15-16 | a restore on a fresh hook loads min(stored, totalLevels + 1) |
| Progress.UpdateCanLower | hooks/useProgress.ts:22-26 | updateLevel is not monotone: it can lower the level |
| Players.Store.constructor | app/api/player/route.ts:52-62 | the store holds the given dictionary |
| Players.LevelOr1 | app/api/player/route.ts:61 | `level \|\| 1`: a level of 0 becomes 1 and any other level is kept, so the result is never 0 |
| PlayerRoute.PlayerId | app/api/player/route.ts:40-50 | the id is never empty: a non-empty cookie is the id, otherwise "player-" followed by the generated part |
| PlayerRoute.PlayerIdSticky | app/api/player/route.ts:40-50 | a later request that carries the returned id as its cookie is given the same id, so it addresses the same record |
| PlayerRoute.Get | app/api/player/route.ts:52-62 | GET shows the record's name (no name when it is missing or empty) and its level; a stored level of 0 and an unknown player both show level 1, so the level shown is never 0 |
| PlayerRoute.PostLevel | app/api/player/route.ts:94 | POST stores the body's numeric level; without one it stores exactly the level GET was showing |
| PlayerRoute.Patched | app/api/player/route.ts:130-143 | after PATCH with a non-zero level, GET shows that level; GET shows the name it showed before for a known player, and "Jugador" for a new one |
| PlayerRoute.Post | app/api/player/route.ts:81-98 | a name that is not a string or is blank gets 400 and no change; otherwise 200, and exactly the caller's record is replaced by the trimmed name, the POST level and the time |
| PlayerRoute.Patch | app/api/player/route.ts:119-145 | a level that is not a number gets 400 and no change; otherwise 200, and exactly the caller's record becomes Patched(...) |
| PlayerRoute.PostThenGet | app/api/player/route.ts:52-98 | after a POST, GET shows the trimmed name and the new non-zero level, and every other player's view is unchanged |
| PlayerRoute.PostKeepsShownLevel | app/api/player/route.ts:61-94 | a POST without a level keeps the level GET showed before |
| PlayerRoute.PatchIdempotent | app/api/player/route.ts:119-145 | repeating a PATCH changes only the timestamp |
| PlayerRoute.PatchCanLower | app/api/player/route.ts:137-143 | PATCH can lower a stored level |
| AdminRoute.AdminKey | app/api/admin/players/route.ts:22 | the key is never empty: ADMIN_KEY when it is set and non-empty, else "change-me-in-production" |
| AdminRoute.IsAuthorized | app/api/admin/players/route.ts:20-29 | a missing or empty header is refused, and the only headers that pass are the key itself or the key with "Bearer " put in at one place |
| AdminRoute.BearerTokenAuthorizes | app/api/admin/players/route.ts:27-28 | "Bearer " followed by a token is accepted exactly when the token is the key |
| AdminRoute.BareKeyAuthorizes | app/api/admin/players/route.ts:27-28 | a header without "Bearer " is compared as it is, so the bare key passes too |
| AdminRoute.TokenShape | app/api/admin/players/route.ts:27-28 | helper of IsAuthorized: a header whose first "Bearer " is cut out to leave a token is the token itself or the token with "Bearer " put in at one place |
| AdminRoute.EmptyBearerRefused | app/api/admin/players/route.ts:20-29 | "Bearer " with nothing after it is refused, whatever ADMIN_KEY is |
| AdminRoute.FallbackKeyAuthorizes | app/api/admin/players/route.ts:22-28 | with ADMIN_KEY unset or empty, "Bearer change-me-in-production" is accepted |
| AdminRoute.GetAll | app/api/admin/players/route.ts:52-64 | the dictionary is returned, whole, only to an authorised caller; no header, an empty one or a bare "Bearer " gets 401 and no data |
| AdminRoute.BadPostBody | app/api/admin/players/route.ts:76-86 | definition: the three body checks of POST, in the handler's order; AdminRoute.Post states what a refused body leads to |
| AdminRoute.Merged | app/api/admin/players/route.ts:88-95 | the merged record: the body's name, else the old non-empty name, else "Jugador"; the body's level, else the old level or 1; the current time |
| AdminRoute.Lookup | app/api/admin/players/route.ts:89 | definition of `players[playerId] \|\| {}` as an optional record; AdminRoute.Merged and AdminRoute.Post state what a missing record leads to |
| AdminRoute.Post | app/api/admin/players/route.ts:67-104 | 401 without authorisation, 400 for a bad body, both without change; otherwise 200, and exactly one record becomes Merged(...) |
| AdminRoute.Delete | app/api/admin/players/route.ts:107-134 | 401, 400 for a missing id and 404 for an unknown one, all without change; otherwise 200, and exactly that record is removed |
| AdminRoute.MergeIdempotent | app/api/admin/players/route.ts:88-95 | sending the same POST body twice equals sending it once, up to the time |
| AdminRoute.MergeKeepsRecord | app/api/admin/players/route.ts:92-93 | a POST with only an id keeps an existing record's name and non-zero level |
| AdminRoute.DeleteRemovesOne | app/api/admin/players/route.ts:126 | deleting removes exactly one record and keeps every other one |
| Leaderboard.ListedIsTrimFilter | app/api/players/route.ts:40 | a player is listed exactly when the name is non-empty and non-blank after `trim()`: Listed is the filter |
| Leaderboard.Listed | app/api/players/route.ts:40 | definition of the filter; ListedIsTrimFilter proves it equal to `name && name.trim()` |
| Leaderboard.FromListedTail | app/api/players/route.ts:40-46 | a row from the tail of the entries is a row from the entries |
| Leaderboard.Listing | app/api/players/route.ts:40-46 | filter-then-map never produces more rows than entries |
| Leaderboard.Project | app/api/players/route.ts:41-46 | definition of the `.map` step: the id beside the record's name, level and time, the name untrimmed; ListingMembers and RankOfStore state which rows appear |
| Leaderboard.ListingMembers | app/api/players/route.ts:40-46 | a row is in the listing exactly when it is the projection of a listed entry |
| Leaderboard.Before | app/api/players/route.ts:47-54 | definition of the comparator; total (BeforeTotal) and transitive (BeforeTransitive) |
| Leaderboard.BeforeTotal | app/api/players/route.ts:47-54 | the comparator relates any two rows one way or the other |
| Leaderboard.BeforeTransitive | app/api/players/route.ts:47-54 | the comparator is transitive |
| Leaderboard.SortedCons | app/api/players/route.ts:47-54 | a row that may stand before every row of a sorted list may lead it |
| Leaderboard.BeforeAllInserted | app/api/players/route.ts:47-54 | a row that may stand before every row of a list, and before x, may stand before every row after x is inserted |
| Leaderboard.Insert | app/api/players/route.ts:47-54 | inserting into a sorted list gives a sorted list with one more element and the same multiset plus x |
| Leaderboard.Sort | app/api/players/route.ts:47-54 | the result is sorted by level (highest first), then by time of last update (earliest first), and is a permutation of the input |
| Leaderboard.Rank | app/api/players/route.ts:39-54 | the response is sorted and is a permutation of the listing |
| Leaderboard.RankMembers | app/api/players/route.ts:39-54 | a row is in the response exactly when it comes from a listed entry |
| Leaderboard.RankOrder | app/api/players/route.ts:47-54 | along the response levels never rise, and at equal levels the earlier update comes first |
| Leaderboard.RankHasNoBlankNames | app/api/players/route.ts:40 | no row of the response has a name that trims to the empty string |
| Leaderboard.EntriesOf | app/api/players/route.ts:39 | definition: the list is `Object.entries` of the dictionary, each key once beside its own record |
| Leaderboard.RankOfStore | app/api/players/route.ts:39-54 | over the dictionary: a row is in the response exactly when it is the row of a stored player whose name is not blank |
| Leaderboard.RankExample | app/api/players/route.ts:39-54 | of two level-5 players the earlier one leads, and a level-3 player follows |
| Leaderboard.ListedByName | app/api/players/route.ts:40 | a one-letter name passes the filter |
| Leaderboard.ListingHead | app/api/players/route.ts:40-46 | helper of RankExample: a listed first entry leads the listing |
| Leaderboard.ListingOfTwo | app/api/players/route.ts:40-46 | helper of RankExample: two listed entries are listed in order |
| Leaderboard.ListingOfThree | app/api/players/route.ts:40-46 | helper of RankExample: three listed entries are listed in order |
| Leaderboard.SortSnoc | app/api/players/route.ts:47-54 | helper of RankExample: sorting with one more row at the end inserts that row into the sorted rest |
| Leaderboard.InsertAfterOne | app/api/players/route.ts:47-54 | helper of RankExample: a row that compares after the only row goes second |
| Leaderboard.SortTwo | app/api/players/route.ts:47-54 | helper of RankExample: two rows out of order are swapped |
| Leaderboard.SortThree | app/api/players/route.ts:47-54 | helper of RankExample: a third row that compares after both goes last |
| Leaderboard.SortOfThree | app/api/players/route.ts:47-54 | helper of RankExample: sorting three rows inserts the third into the sorted first two |
| Leaderboard.InsertAfterTwo | app/api/players/route.ts:47-54 | helper of RankExample: a row that compares after both rows of a sorted pair goes last |
| Leaderboard.InsertAfterHead | app/api/players/route.ts:47-54 | helper of RankExample: a first row that compares before x stays in front of it |
| EditPlayers.SetLevel | scripts/edit-players.js:58-79 | an unknown id is NotFound, and a level that parses to NaN or below 1 is InvalidLevel, both without change; otherwise exactly that record gets the parsed level and the time |
| EditPlayers.DeletePlayer | scripts/edit-players.js:81-92 | an unknown id is NotFound without change; otherwise exactly that record is removed |
| EditPlayers.RenamePlayer | scripts/edit-players.js:94-106 | an unknown id is NotFound without change; otherwise exactly that record gets the trimmed name (even an empty one) and the time |
| Challenge7.Step | components/challenges/Challenge7.tsx:30-82 | one play keeps the window inside [1, 999] and non-empty, and keeps a playing game's moves below 10; an answer is submitted only on a win; "no range left" never appears |
| Challenge7.Challenge7Game.constructor | components/challenges/Challenge7.tsx:21-24 | the game starts on the window [1, 999] with no moves, playing |
| Challenge7.Challenge7Game.HandlePlay | components/challenges/Challenge7.tsx:30-82 | the in-place update of the six state variables gives exactly Step(...)'s state and submission |
| Challenge7.FinishedIgnoresPlay | components/challenges/Challenge7.tsx:31 | a finished game ignores plays |
| Challenge7.BadGuessOnlySetsError | components/challenges/Challenge7.tsx:32-36 | a guess that is NaN or outside [1, 999] only sets the error |
| Challenge7.GuessCostsOneMove | components/challenges/Challenge7.tsx:38-39 | an accepted guess costs exactly one move |
| Challenge7.LastMoveDecides | components/challenges/Challenge7.tsx:43-50 | the tenth move wins exactly when the window is one number and the guess names it, and only a win submits |
| Challenge7.EarlyMoveNarrowsOneSide | components/challenges/Challenge7.tsx:54-79 | before the last move the game goes on, and exactly one end of the window moves, the one the hint says |
| Challenge7.SidesNeverEmpty | components/challenges/Challenge7.tsx:54-64 | neither side is ever empty, so the "no range left" branch is dead |
| Challenge7.KeepsLargerSide | components/challenges/Challenge7.tsx:66-71 | the side kept is never the smaller one |
| Challenge7.WindowCanGrow | components/challenges/Challenge7.tsx:54-57 | a guess above the window moves `high` up: the window can grow |
| Challenge7.MidpointHalves | components/challenges/Challenge7.tsx:54-79 | guessing the midpoint at least halves the window |
| Challenge7.RunKeepsWindowSmall | components/challenges/Challenge7.tsx:30-82 | after m midpoint moves the window is no larger than 999 halved m times |
| Challenge7.NineHalvings | components/challenges/Challenge7.tsx:14-16 | halving 999 nine times leaves one number |
| Challenge7.MidpointStrategyWins | components/challenges/Challenge7.tsx:30-82 | guessing the midpoint on every move wins, whatever the coin flips |
| Challenge7.RunSplit | components/challenges/Challenge7.tsx:30-82 | playing two runs of moves one after the other equals playing them joined |
| Challenge8.CalculateWays | components/challenges/Challenge8.tsx:15-25 | the array loop returns Ways(n) for n >= 0, and nothing (`undefined`) for a negative n |
| Challenge8.Ways | components/challenges/Challenge8.tsx:16-22 | definition: the seeds 1, 1, 2 and the three-term recurrence the array follows; WaysCountsClimbs shows it counts the climbs |
| Challenge8.WaysCountsClimbs | components/challenges/Challenge8.tsx:15-25 | the seeds 1, 1, 2 and the three-term recurrence count the climbs with strides of 1, 2 or 3 |
| Challenge8.WaysPositive | components/challenges/Challenge8.tsx:15-25 | every staircase has at least one climb |
| Challenge8.WaysMonotone | components/challenges/Challenge8.tsx:15-25 | the count never falls as the staircase grows |
| Challenge8.ShownSequence | components/challenges/Challenge8.tsx:28-40 | steps 1 to 5 show 1, 2, 4, 7 and 13 ways, and step 3 matches the worked example |
| Challenge8.FifteenSteps | components/challenges/Challenge8.tsx:48 | the asked-for staircase of 15 steps has 5768 climbs |
| Challenge9.Substitute | components/challenges/Challenge9.tsx:19 | a character is never erased: it becomes its entry when that is non-empty, and stands for itself otherwise |
| Challenge9.EncryptText | components/challenges/Challenge9.tsx:16-21 | `encryptText`: the result is never shorter than the text; EncryptConcat, EncryptPointwise and DecryptWithInverse state the rest |
| Challenge9.EncryptConcat | components/challenges/Challenge9.tsx:16-21 | encryption distributes over concatenation |
| Challenge9.EncryptUnmapped | components/challenges/Challenge9.tsx:19 | text whose characters have no non-empty entry is unchanged |
| Challenge9.EncryptEmptyMap | components/challenges/Challenge9.tsx:16-21 | the empty map is the identity |
| Challenge9.EncryptPointwise | components/challenges/Challenge9.tsx:16-21 | with entries of at most one character, the length is kept and each position is substituted on its own |
| Challenge9.DecryptWithInverse | components/challenges/Challenge9.tsx:16-21 | a map that sends each substituted character back undoes the encryption |

## Left out

- Unicode: letter case is for ASCII only. Whitespace is the JavaScript set of `trim`. The Caesar methods require ASCII input (`Js.IsAscii`). Strings are sequences of Unicode characters, while `split('')` in Challenge9.EncryptText works on UTF-16 code units; the two differ only for a substitution key outside the Basic Multilingual Plane.
- Validate.ValidateAnswer: case is folded for ASCII letters only, so answers differing in the case of other letters (accented letters, Greek) are told apart, where `toLowerCase` would not.
- Validate.IsPiAnswer: for the same reason a capital pi is refused, though `"\u03A0".toLowerCase()` is the letter pi and the source accepts it.
- Caesar.CaesarEncrypt: does not model JavaScript's full Unicode `toUpperCase`, because the case map is not available here; non-ASCII input is excluded.
- Caesar.CaesarDecrypt: ASCII input only, for the same reason.
- Floating point: numbers in request bodies, in storage and in the puzzles are integers. NaN is `None` or `NotANumber`. Precision loss past 2^53 in the staircase counts is not modelled.
- Parsing: `Number(stored)` in the progress hook is modelled as its outcome `StoredLevel`, not as string parsing.
- The check endpoint: the JSON body is left out; its fields arrive as dynamic values.
- Files: reading and writing `data/players.json` is left out. Each handler's load, change and write-back is one update of `Store.players`.
- Error paths: the 500 replies on storage failure, request-parsing failures and the console output are left out.
- Cookies: setting the `player-id` cookie on the response is left out.
- Inputs taken as parameters: the clock reading and random digits that follow "player-" in a fresh id; the `ADMIN_KEY` variable; the `Authorization` header; the clock; the coin `Math.random() < 0.5` of puzzle 7.
- Time stamps: `lastUpdated` is an integer clock reading. It orders like the ISO strings and `Date` parsing of the source.
- Leaderboard.Sort: `Array.prototype.sort` is modelled by a stable insertion sort over the `Object.entries` order. Stability itself is not stated as a property.
- Dictionary keys: JavaScript objects' prototype keys such as `__proto__` are not modelled.
- The rest of scripts/edit-players.js: `listPlayers`, the argument dispatch and `process.exit` are not part of this model. A failure is an `Outcome`.
- Puzzle catalog: `loadPuzzles` and the puzzle and cipher routes are not part of this model. The catalog and the cipher map are parameters.
- Components: their rendering, React state scheduling and the pages are left out. Only the logic of handlers and helpers is modelled.
- Challenge7: the move limit is the constant 10. The source computes it as `Math.ceil(Math.log2(999))`.
- Challenge7.Challenge7Game.HandlePlay: the source's "no range left" branch is dead. The method has `assert false` there, and SidesNeverEmpty proves the branch unreachable.
- Progress.ProgressHook.Restore: `totalLevels` is fixed for the hook's life. The source re-runs the restoring effect when the total changes (the page passes a default total until the catalog has loaded); the model has one restore per total.
- Concurrency: concurrent requests racing on the same file are left out.
