# WordScramble in Dafny

WordScramble is a SwiftUI word game. The player gets a root word, such as
"silkworm", and types shorter words spelt from its letters. An entry is
lower-cased and trimmed before it is checked. It is then turned down, with
an alert, if any of these hold:

- it has fewer than three letters;
- it is the root word itself;
- it has already been accepted;
- it needs more of some letter than the root word has;
- the spell checker does not know it.

An entry that passes all five checks goes to the top of the list and earns
ten points per letter. "Start new Game" draws a new root word from the
bundled word list and resets the score.

The model has these modules:

- `Wrappers` (`wrappers.dfy`): `Option`.
- `Text` (`text.dfy`): the Swift string operations the game uses, on
  `seq<char>` with ASCII semantics. These are lowercasing, trimming of
  whitespace and newlines, splitting on a separator, `firstIndex(of:)` and
  `remove(at:)`.
- `Validation` (`validation.dfy`): the pure rules.
  - The five rejections and the order they are checked in (`CheckOrder`).
  - The spelling relation `Spellable`, which is multiset inclusion of letters.
  - The verdict on an answer, given by `FirstFailure` over `CheckOrder`.
  - The alert texts.
  - The invariant on the list of accepted words.
- `WordScramble` (`content_view.dfy`): `ContentView` as a class. Its
  seven `@State` properties are fields. `isPossible` is a loop,
  `addNewWord` runs its guards in source order, and `startGame` and the
  toolbar action update the fields. `ContentView.Valid()` says the
  accepted words satisfy the list invariant and the score is ten times
  their total length. Every submission keeps this invariant.
- `Scenarios` (`scenarios.dfy`):
  - examples on the root word "silkworm", among them that "worms" is
    spellable from it, because the root has an 's';
  - sessions of several submissions on any view: a repeated entry, and both
    versions of the "Start new Game" button.

The spell checker (`UITextChecker`) is a parameter `isReal: string -> bool`
of `AddNewWord`. The contents of `start.txt` are a parameter
`startWords: Option<string>`, where `None` means the file could not be
found or read. The random draw is a parameter `pick: nat`.

A `start.txt` whose last line ends in a newline has an empty last line
(`Text.SplitTrailingSeparator`), so `startGame` can draw "" as the root
word. With that root no answer is ever accepted
(`Validation.EmptyRootAcceptsNothing`), until a new game draws another word.

## Model

| member | source | states |
|---|---|---|
| WordScramble.ContentView.constructor | WordScramble/ContentView.swift:11-20 | every field starts at its declared initial value (empty list, empty strings, no alert, score 0), and the invariant holds |
| WordScramble.ContentView.IsOriginal | WordScramble/ContentView.swift:114-116 | the answer is original exactly when no accepted word equals it |
| WordScramble.ContentView.IsPossible | WordScramble/ContentView.swift:118-131 | removing the first occurrence of each letter from a copy of the root, and stopping at the first letter with none left, answers true exactly when the word's letters, with multiplicity, are contained in the root's |
| WordScramble.ContentView.WordError | WordScramble/ContentView.swift:141-145 | sets the alert title and message to the ones given and shows the alert; nothing else changes |
| WordScramble.ContentView.Reject | WordScramble/ContentView.swift:68-91 | the alert title and message a failed guard passes, for the root word of the moment |
| WordScramble.ContentView.Accept | WordScramble/ContentView.swift:94-99 | the answer goes to the front of the list, the score grows by ten times the letter count computed on line 63, the field is cleared, and the invariant is kept |
| WordScramble.ContentView.AddNewWord | WordScramble/ContentView.swift:61-100 | on acceptance: the normalised answer is prepended, the score grows by ten times its length, the field is cleared and the alert is untouched. On rejection: list, score and field are untouched and the alert shows the title and message of the first failed guard. The root never changes, the score never drops, and the invariant is kept |
| WordScramble.ContentView.StartGame | WordScramble/ContentView.swift:102-112 | loads exactly when the word list is readable; the new root is one of its lines, namely the drawn one; an unreadable list changes nothing |
| WordScramble.ContentView.StartNewGameAsWritten | WordScramble/ContentView.swift:46-49 | the toolbar action as written: a new root from the list (the drawn line when the draw is in range) and score 0, with the accepted words kept as they were |
| WordScramble.ContentView.StartNewGame | WordScramble/ContentView.swift:46-49 | the toolbar action as intended: a new root (the drawn line when the draw is in range), an empty list and score 0, so the invariant holds afterwards |
| WordScramble.RandomElement | WordScramble/ContentView.swift:106 | no element exactly for the empty list; otherwise a member of the list, and the drawn one when the draw is in range |
| WordScramble.ConsumeLetter | WordScramble/ContentView.swift:123-124 | removing a letter that is present keeps the loop invariant: the prefix consumed so far is contained in the root, and the working copy is the root minus that prefix |
| WordScramble.ExhaustedLetter | WordScramble/ContentView.swift:125-126 | a letter missing from the working copy proves the whole word cannot be spelt |
| Validation.FirstFailure | WordScramble/ContentView.swift:68-91 | no rejection exactly when every check passes; a rejection is one of the checks and one that fails |
| Validation.FirstFailureIsFirst | WordScramble/ContentView.swift:68-91 | the rejection reported is the first failing check: every check before it passes |
| Validation.FirstFailureIgnoresLater | WordScramble/ContentView.swift:68-91 | once a check fails, the checks after it cannot change the verdict |
| Validation.VerdictCases | WordScramble/ContentView.swift:68-91 | each of the five rejections happens exactly when its guard fails and all earlier guards pass, and acceptance happens exactly when all five pass |
| Validation.VerdictIgnoresSpellChecker | WordScramble/ContentView.swift:88 | an answer turned down before the spell check gets the same verdict whatever the spell checker says |
| Validation.EmptyRootAcceptsNothing | WordScramble/ContentView.swift:83-86 | with an empty root word, as before a game starts, no answer can be accepted |
| Validation.TitlesDistinct | WordScramble/ContentView.swift:69-89 | the five alert titles are pairwise different, so the alert tells which guard failed |
| Validation.AcceptKeepsWordsValid | WordScramble/ContentView.swift:94-97 | prepending an accepted normalised answer keeps the accepted words normalised, longer than two letters, different from the root, spellable from it and pairwise distinct, and adds its length to the total |
| Validation.CheckOrder | WordScramble/ContentView.swift:68-91 | the order of the five guards: too short, same as the root, already used, not possible, not real |
| Validation.Passes | WordScramble/ContentView.swift:68-88 | the five guard conditions: more than two letters, not the root word, not yet used, spellable from the root, known to the spell checker |
| Validation.Verdict | WordScramble/ContentView.swift:68-91 | the decision `addNewWord` takes on a normalised answer: the first guard in `CheckOrder` that it fails, or acceptance |
| Validation.Title | WordScramble/ContentView.swift:69-89 | the title each guard passes to `wordError` |
| Validation.Message | WordScramble/ContentView.swift:69-89 | the message each guard passes to `wordError`, with the root word filled in where the source interpolates it |
| Text.IsSpace | WordScramble/ContentView.swift:62 | the ASCII members of `.whitespacesAndNewlines`: space, tab, line feed, carriage return, vertical tab and form feed |
| Text.LowerChar | WordScramble/ContentView.swift:62 | the result is never upper case; an upper-case letter maps to its lower-case partner; any other character is kept, so whitespace stays whitespace |
| Text.Lowercased | WordScramble/ContentView.swift:62 | same length, each character replaced by its ASCII lower-case form, no upper-case letter left, whitespace at the same positions, and a string with no upper case is unchanged |
| Text.LeadingSpaces | WordScramble/ContentView.swift:62 | the count of the whitespace run at the front: all of it whitespace and the next character not |
| Text.TrailingSpaces | WordScramble/ContentView.swift:62 | the same for the run at the back |
| Text.Trimmed | WordScramble/ContentView.swift:62 | a contiguous slice of the input that neither starts nor ends with whitespace; everything cut off on either side is whitespace; text that already has non-space ends is unchanged |
| Text.DropTrailingSpaces | WordScramble/ContentView.swift:62 | a prefix of the input, all whitespace after it, and it does not end in whitespace |
| Text.Normalize | WordScramble/ContentView.swift:62 | the answer is the lower-cased entry with its leading whitespace run cut off and then its trailing whitespace: a slice of the lower-cased entry that starts after the leading whitespace, has no whitespace at either end and no upper case |
| Text.NormalizeCutsOnlyWhitespace | WordScramble/ContentView.swift:62 | everything of the entry before and after the answer is whitespace |
| Text.LeadingSpacesLowercased | WordScramble/ContentView.swift:62 | lower-casing does not change the length of the leading whitespace run |
| Text.NormalizedIsFixedPoint | WordScramble/ContentView.swift:62 | normalising leaves a string alone exactly when it is already normalised, and its result is always normalised |
| Text.NormalizeIdempotent | WordScramble/ContentView.swift:62 | normalising twice is normalising once |
| Text.NormalizeIgnoresLeadingSpace | WordScramble/ContentView.swift:62 | a whitespace character in front of the entry does not change the answer |
| Text.NormalizeIgnoresTrailingSpace | WordScramble/ContentView.swift:62 | a whitespace character after the entry does not change the answer |
| Text.NormalizeIgnoresPadding | WordScramble/ContentView.swift:62 | whitespace on both sides of the entry does not change the answer |
| Text.Split | WordScramble/ContentView.swift:105 | at least one piece, no piece holds the separator, and there is more than one piece exactly when the text holds a separator |
| Text.JoinSplit | WordScramble/ContentView.swift:105 | the pieces joined with the separator give back the text |
| Text.SplitJoin | WordScramble/ContentView.swift:105 | pieces without separators, once joined, split back into the same pieces |
| Text.SplitNoSeparator | WordScramble/ContentView.swift:105 | text without a separator is a single piece |
| Text.SplitPrefix | WordScramble/ContentView.swift:105 | a separator-free first line followed by a separator splits off as the first piece |
| Text.SplitTrailingSeparator | WordScramble/ContentView.swift:105-106 | a word list ending in a newline has an empty last line, so the draw can pick the empty root word |
| Text.FirstIndexOf | WordScramble/ContentView.swift:123 | no index exactly when the letter is absent; otherwise an index holding the letter with no earlier occurrence |
| Text.RemoveAt | WordScramble/ContentView.swift:124 | one character shorter, and the letters are those of the input minus one occurrence of the removed letter |
| Wrappers.Option.GetOr | WordScramble/ContentView.swift:106 | the contained value when present, else the fallback |
| Scenarios.SubmitAccepted | WordScramble/ContentView.swift:94-99 | typing an entry whose answer passes every guard prepends the answer, adds ten points per letter and keeps the invariant |
| Scenarios.SubmitAlreadyUsed | WordScramble/ContentView.swift:78-81 | typing an entry whose answer is already in the list leaves list and score alone and shows the "Word used already" title |
| Scenarios.SubmitTwice | WordScramble/ContentView.swift:78-81 | after an entry is accepted, typing it again is turned down as already used, and only the first submission scores |
| Scenarios.NewGameKeepsUsedWords | WordScramble/ContentView.swift:46-49 | with the button as written, a new game on the same root has score 0 but keeps the accepted entry; the invariant is broken and the entry is turned down as already used |
| Scenarios.NewGameClearsUsedWords | WordScramble/ContentView.swift:46-49 | with the corrected button, the same entry is accepted again and scores from zero, and the invariant holds |
| Scenarios.StaleWordBreaksInvariant | WordScramble/ContentView.swift:46-49 | a word kept from the old game need not be spellable from the new root ("silk" under "abstract") |
| Scenarios.SilkSpellable | WordScramble/ContentView.swift:118-131 | "silk" can be spelt from "silkworm" |
| Scenarios.WormSpellable | WordScramble/ContentView.swift:118-131 | "worm" can be spelt from "silkworm" |
| Scenarios.WormsSpellable | WordScramble/ContentView.swift:118-131 | "worms" can be spelt from "silkworm" |
| Scenarios.SilkkNotSpellable | WordScramble/ContentView.swift:118-131 | "silkk" cannot be spelt from "silkworm", which has a single 'k' |
| Scenarios.LowercasedSilk | WordScramble/ContentView.swift:62 | "SILK" lower-cases to "silk" |
| Scenarios.NormalizeWorm | WordScramble/ContentView.swift:62 | "worm" is already an answer |
| Scenarios.NormalizeLowerSilk | WordScramble/ContentView.swift:62 | "silk" is already an answer |
| Scenarios.NormalizeUpperSilk | WordScramble/ContentView.swift:62 | "SILK" normalises to "silk" |
| Scenarios.NormalizeSilk | WordScramble/ContentView.swift:62 | " SILK " with a space on either side normalises to "silk" |
| Scenarios.WormAccepted | WordScramble/ContentView.swift:68-91 | "worm" is accepted on "silkworm" at the start of a game when the spell checker knows it |
| Scenarios.SilkAccepted | WordScramble/ContentView.swift:68-91 | "silk" is accepted on "silkworm", before or after "worm" |
| Scenarios.SilkAlreadyUsed | WordScramble/ContentView.swift:78-81 | "silk" is turned down as already used once it heads the list |

## Left out

- The SwiftUI `body` (lines 22-59) is left out. This covers the text field, the list and its icons, the alert presentation and the animation. Only the state they read and write is modelled.
- `isReal` (lines 133-139) is a parameter. `UITextChecker` is an Apple framework whose dictionary is not part of this model.
- Reading `start.txt` from the bundle is a parameter `startWords`, because it is file I/O. `None` stands for a missing or unreadable file. The source then stops the program with `fatalError`; `StartGame` instead returns `false` and changes nothing.
- `randomElement()` is a parameter `pick`. `RandomElement` uses `pick` modulo the length of the list.
- The `?? "silkworm"` fallback can never be taken, because splitting always yields at least one line (`Text.Split`). It is modelled with `GetOr` all the same.
- Text.Normalize: lowercasing and trimming are ASCII only. Swift's Unicode case mapping and the non-ASCII members of `.whitespacesAndNewlines` are not modelled.
- Text.Split: characters are Dafny `char`s, not Swift grapheme clusters. A "\r\n" line ending is two characters here and so leaves a '\r' at the end of each line.
- WordScramble.ContentView.AddNewWord: `answer.count` is the sequence length, not a count of grapheme clusters.
- WordScramble.ContentView.AddNewWord: the score is an unbounded integer. Swift's `Int` overflow trap is not modelled, because it needs more than 10^17 letters.
- WordScramble.ContentView.IsPossible: the loop's early exit at the first missing letter appears only through the loop invariant. The contract states the answer, not which letter stopped the loop.
- Valid() is a ghost predicate. It is the list invariant every submission keeps, which the source never writes down.

## Findings

| source | as written | input that shows it | evidently intended | confidence | as-written member | corrected member |
|---|---|---|---|---|---|---|
| WordScramble/ContentView.swift:46-49 | "Start new Game" calls `startGame()` and sets the score to 0 but keeps `usedWords` | accept "silk" on "silkworm"; press "Start new Game" and draw "silkworm" again; the list still shows "silk" at score 0, and typing "silk" is turned down as "Word used already" | a new game also clears the accepted words, so the list, the score and the root word start over together | medium, not executed | WordScramble.ContentView.StartNewGameAsWritten, Scenarios.NewGameKeepsUsedWords, Scenarios.StaleWordBreaksInvariant | WordScramble.ContentView.StartNewGame, Scenarios.NewGameClearsUsedWords |
