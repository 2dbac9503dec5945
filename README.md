# WordScramble word submission, modelled in Dafny

WordScramble is a one-screen word game. The player sees a root word and
types candidate words into a text field. On submit, `addNewWord` lowercases
and trims the typed text, then runs five guard checks in a fixed order:

1. the answer is the root word;
2. the answer has 3 characters or fewer;
3. the answer was already accepted (`isOriginal`);
4. the answer is not possible (`isPossible`);
5. the answer is not a real word (`isReal`, a platform spell-checker).

The first failing check sets `errorMessage` to its own text and raises
`showError`. An answer that passes all five is inserted at the front of
`usedWords`, and the text field `newWord` is cleared. `startGame` picks a
new root word from a bundled word list.

The project has four modules:

- `Text` (text.dfy): the normalisation `lowercased()` then
  `trimmingCharacters(in: .whitespacesAndNewlines)`.
- `Possible` (possible.dfy): the letter-consumption loop of `isPossible`
  with its `firstIndex(of:)` / `remove(at:)` steps, and the sub-anagram rule
  (`SubAnagram`) the loop decides.
- `Validation` (validation.dfy): the guard chain as a function `Evaluate`
  over the root word, the accepted words and the answer. It also holds the
  error texts and the lemmas about the order of the checks and the round
  invariant.
- `Game` (game.dfy): the class `ContentView` with the view's state fields
  and the methods `AddNewWord` and `StartGame`. `AddNewWord` runs the guard
  chain step by step, and its postcondition ties the new state to
  `Evaluate`.

## Where the code departs from the game's rules

The game's rule is that an answer must be spelled from the root word's
letters, each letter of the root used at most once.
`Possible.SubAnagram(answer, rootWord)` states that rule. The code does not
check it. `isPossible` starts its working copy `tempWord` from the answer
itself (ContentView.swift line 101), not from `rootWord`. Every letter
therefore finds its match and the check always passes. The model follows
the code:

- `Possible.IsPossible` is proved to always return true.
- `Validation.Evaluate` never rejects with the not-possible reason.
- In `Game.ContentView.AddNewWord` the not-possible branch is proved dead.

`Validation.IntendedRuleNotEnforced` exhibits the gap. "wrist" is accepted
against the root "silkworm" whenever the dictionary knows "wrist", yet
"silkworm" has no 't'. The general loop `Possible.ConsumeLetters(word, pool)`
decides `SubAnagram(word, pool)` for any starting pool. Called with the root
word as the pool, it gives the described rule.

The game's rule is also that a new game starts with an empty list of
accepted words, and that the root word is never among them.
`startGame` only assigns `rootWord`, so the model keeps `usedWords` across
games. `Game.NewRootMayBeUsed` runs the steps: start a game, accept a word,
start a new game that picks that word. The round invariant then fails,
because the root word is an accepted word.

`startGame` splits the word list at line feeds, and the split never
returns an empty list. The `"silkworm"` fallback for an empty list can
therefore never be taken. A list that ends in a line feed has an empty last
piece, and that piece can become the root word.
`Game.EmptyRootFromFinalNewline` shows the consequence: with an empty root
word, an empty submission is reported as the root word rather than as too
short.

## Model

| member | source | states |
|---|---|---|
| `Text.Lower` | WordScramble/ContentView.swift:53 | lowercasing a character leaves no capital letter, maps a capital to the letter 32 code points up, and leaves every other character alone |
| `Text.Lowercased` | WordScramble/ContentView.swift:53 | `lowercased()` keeps the length, lowercases each position in place, and leaves no capital letter |
| `Text.LeadingWhitespace` | WordScramble/ContentView.swift:53 | the count of leading characters the trim removes: all of them are whitespace and the next one is not |
| `Text.TrailingWhitespace` | WordScramble/ContentView.swift:53 | the count of trailing characters the trim removes: all of them are whitespace and the one before is not |
| `Text.TrimShape` | WordScramble/ContentView.swift:53 | the trim returns a contiguous slice, cuts off only whitespace on either side, leaves no whitespace at either end, and introduces no capital letter |
| `Text.NormaliseShape` | WordScramble/ContentView.swift:53 | the normalised answer has no capital letter and neither starts nor ends with whitespace |
| `Text.LowercasedOfLower` | WordScramble/ContentView.swift:53 | lowercasing a string with no capital letter returns it unchanged |
| `Text.TrimOfTrimmed` | WordScramble/ContentView.swift:53 | trimming a string that neither starts nor ends with whitespace returns it unchanged |
| `Text.NormalFormFixed` | WordScramble/ContentView.swift:53 | a string with no capital letter and no whitespace at either end is its own normal form |
| `Text.NormaliseIdempotent` | WordScramble/ContentView.swift:53 | normalising an already normalised answer changes nothing |
| `Text.Lines` | WordScramble/ContentView.swift:88 | `components(separatedBy: "\n")` always returns at least one piece, and no piece contains a line feed |
| `Text.LinesRoundTrip` | WordScramble/ContentView.swift:88 | joining the pieces with line feeds gives the original text back, so the split loses nothing |
| `Text.LinesOfOneLine` | WordScramble/ContentView.swift:88 | text without a line feed splits into exactly itself |
| `Text.LinesAfterFinalNewline` | WordScramble/ContentView.swift:88 | text ending in a line feed splits into at least two pieces, the last one empty |
| `Possible.FirstIndex` | WordScramble/ContentView.swift:104 | `firstIndex(of:)` is absent exactly when the letter does not occur; otherwise it is a position of that letter with no earlier occurrence |
| `Possible.RemoveAt` | WordScramble/ContentView.swift:105 | `remove(at:)` shortens the string by one and removes exactly one copy of the letter at that position from its letter multiset |
| `Possible.ConsumeLetters` | WordScramble/ContentView.swift:102-110 | the `for letter in word` loop that consumes letters from the working copy succeeds exactly when the word's letters form a sub-multiset of the copy's starting letters; the loop invariant says the copy is the start minus the letters visited so far |
| `Possible.MatchedLetter` | WordScramble/ContentView.swift:104-105 | removing a matched letter keeps the loop invariant for the next letter |
| `Possible.UnmatchedLetter` | WordScramble/ContentView.swift:106-107 | a letter with no copy left in the working copy means the word is not a sub-anagram of the starting letters, so returning false is correct |
| `Possible.IsPossible` | WordScramble/ContentView.swift:100-111 | `isPossible` as written, with `tempWord` starting as the answer itself, always returns true |
| `Possible.PossibleIgnoresRoot` | WordScramble/ContentView.swift:101 | "wrist" passes the check the code makes, against itself, but is not a sub-anagram of "silkworm" |
| `Possible.MissingLetter` | WordScramble/ContentView.swift:104-107 | a letter of the word that the pool lacks entirely means the loop cannot succeed: the word is not a sub-anagram |
| `Validation.Evaluate` | WordScramble/ContentView.swift:55-75 | the root word is rejected as the root; a non-root answer of 3 or fewer characters, the empty one included, is rejected as too short; a longer answer already used is rejected as not original whatever the later checks say; the not-possible rejection never happens; acceptance holds exactly when the answer is not the root, is longer than 3, is unused and is real |
| `Validation.FirstFailureWins` | WordScramble/ContentView.swift:55-75 | the checks short-circuit in the order root, length, original, possible, real: the answer is accepted exactly when no check fails, and a rejection names a failing check that no earlier check precedes |
| `Validation.MessagesDistinct` | WordScramble/ContentView.swift:56-73 | the five error texts differ, so each rejection's single message identifies its check |
| `Validation.AcceptKeepsRoundInvariant` | WordScramble/ContentView.swift:77-80 | prepending an accepted answer keeps the root word out of the accepted words and keeps them free of duplicates |
| `Validation.ResubmissionRejected` | WordScramble/ContentView.swift:64-67 | after an answer is accepted and prepended, submitting it again is rejected as not original |
| `Validation.IntendedRuleNotEnforced` | WordScramble/ContentView.swift:68-71 | with a dictionary that knows "wrist", "wrist" is accepted against root "silkworm" although it is not a sub-anagram of it |
| `Game.ContentView.constructor` | WordScramble/ContentView.swift:12-18 | a new view starts with no accepted words, empty root word, text, error title and message, and no error shown |
| `Game.ContentView.IsOriginal` | WordScramble/ContentView.swift:96-98 | `isOriginal` holds exactly when no accepted word equals the answer |
| `Game.ContentView.AddNewWord` | WordScramble/ContentView.swift:51-82 | on rejection, `usedWords` and `newWord` are unchanged, `errorMessage` is the first failing check's text and `showError` is true; on acceptance, `usedWords` is the answer followed by the old list and `newWord` is empty; the root word and error title never change; the round invariant is preserved |
| `Game.ContentView.StartGame` | WordScramble/ContentView.swift:84-94 | the root word becomes the piece of the split word list that the random choice lands on, so it is always one of the list's pieces; every other field, `usedWords` included, is unchanged |
| `Game.RandomElement` | WordScramble/ContentView.swift:89 | `randomElement()` gives nothing exactly for an empty list, and otherwise an element of the list at the chosen position |
| `Game.NewRootMayBeUsed` | WordScramble/ContentView.swift:84-94 | running startGame, addNewWord and startGame again on a fresh view: the round invariant holds after the word is accepted and fails once the new game picks that word as its root |
| `Game.EmptyRootFromFinalNewline` | WordScramble/ContentView.swift:55-59 | for any word list ending in a line feed, picking its empty last piece and submitting an empty text sets the root-word message, not the too-short one |

## Left out

- The SwiftUI `body`: the text field, the list of accepted words, the
  toolbar button, the alert and its dismissal (which resets `showError`
  through the binding), `withAnimation` and the preview provider. These are
  presentation only. Typing into the text field is a direct assignment to
  `newWord`.
- `isReal` calls the platform spell-checker `UITextChecker`, which is
  foreign code. The model takes it as a parameter `isReal: string -> bool`,
  any predicate on strings.
- The file and randomness part of `startGame`. It finds and reads
  `start.txt`, and calls `fatalError` when the file is missing or
  unreadable. `Game.ContentView.StartGame` takes the file's text and the
  random choice (`pick`) as parameters. It models the split at line feeds
  and the `?? "silkworm"` fallback, which can never be taken. It does not
  model the fatal halt.
- Text.Lowercased: only ASCII capitals are lowered. Swift's `lowercased()`
  applies full Unicode case mapping, which can also change a string's
  length.
- Text.IsWhitespace: the whitespace set is written out as the Unicode
  space separators, line and paragraph separators, and tab, line feed to
  carriage return, and NEL. Unicode tables are not modelled beyond this set.
- Validation.Evaluate: the length check counts Unicode scalar values. Swift's
  `String.count` counts grapheme clusters, which can be fewer.
- Game.ContentView.AddNewWord: Swift compares strings by canonical
  equivalence (`==`, `!=` and `usedWords.contains`), and `for letter in word`
  and `firstIndex(of:)` step through grapheme clusters (`Character`). The
  model compares sequences of Unicode scalar values. A precomposed "café"
  and "cafe" followed by a combining acute accent are equal in Swift but
  different in the model.
- Game.ContentView.AddNewWord: the not-possible guard is an `assert false`
  branch. `isPossible` never fails, and assignments placed after the
  assertion would be proved only from contradictory assumptions.
- `errorTitle` is never assigned by the logic, so the alert title stays
  empty. The model keeps the field and proves it unchanged.
