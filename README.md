# wordle-rust guess evaluator in Dafny

This project models the guess evaluator of `wordle-rust`, a terminal Wordle
clone. `check_word(word, solution)` scores a guess against the solution. It
returns a board row of five cells. Each cell holds a character and a colour:
GREEN, YELLOW or NONE.

The evaluator allocates five default cells, each holding the placeholder
character '1' coloured NONE. It then makes two passes over the guess:

1. Every position where the guess letter equals the solution letter becomes GREEN.
2. Every other guess position gets its letter. It is coloured YELLOW when the
   solution contains that letter anywhere, and NONE otherwise.

Positions past the end of a short guess keep the default cell.

Files:

- `game_logic.dfy` (module `GameLogic`) holds the data types `Status` and
  `Element`, the default cell and the buffer length. It also holds the
  specification of the two passes as functions (`ExactPass`, `PresentPass`,
  `Evaluate`), the per-position meaning of a result (`Scores`) and the
  evaluator itself. The evaluator is `CheckWord`, a method that fills a local
  array of five cells in two `for` loops; the second loop skips GREEN cells
  with `continue`.
- `feedback.dfy` (module `Feedback`) holds lemmas about what a result says.
  They cover its per-position meaning, which candidate solutions it leaves
  possible, when a row is all GREEN, and how many cells are GREEN or coloured.

Rust's `check_word` panics in two cases. Indexing the five-cell buffer panics
when the guess is longer than five characters. `solution.chars().nth(i).unwrap()`
panics when the solution is shorter than the guess. The model states both as
the precondition `CanCheck`. Rust's `char` is a Unicode scalar value, and so is
Dafny's `char`; strings are `seq<char>`, indexed by character as `.chars()`
iterates them.

The YELLOW test is a plain "the solution contains this letter". No letter
count is consumed by exact matches or by earlier YELLOW cells. So a guess that
repeats a letter gets every non-exact copy coloured YELLOW once the solution
holds that letter at least once: "AAAAA" against "ABCDE" scores one GREEN and
four YELLOW. A count-consuming rule has been described as the intended design
for this evaluator. The code does not implement it, and this model follows
the code (`Feedback.MarksPerLetter`, `Feedback.RepeatedLetterExample`).

## Model

| member | source | states |
|---|---|---|
| `GameLogic.CheckWord` | src/game_logic.rs:21-50 | On every guess of at most five characters whose solution is at least as long (the inputs that do not panic), the result has five cells. Each guess position holds the guessed letter. It is GREEN exactly on an exact match, otherwise YELLOW exactly when the solution contains the letter and NONE exactly when it does not. Positions past the guess hold the default cell ('1', NONE). The result equals the two-pass specification `Evaluate`. |
| `GameLogic.ExactPass` | src/game_logic.rs:23-31 | The buffer after the first pass still has exactly five cells. |
| `GameLogic.PresentPass` | src/game_logic.rs:33-48 | The buffer after the second pass still has exactly five cells. |
| `GameLogic.Evaluate` | src/game_logic.rs:23-49 | The returned row always has exactly five cells, whatever the guess length. |
| `Feedback.EvaluateIsTheScore` | src/game_logic.rs:15-16 | The two-pass specification meets the per-position meaning (letters, GREEN iff exact match, YELLOW/NONE by containment, default cell '1'/NONE past the guess), and it is the only five-cell row that does. |
| `Feedback.GreenCellsSurvive` | src/game_logic.rs:33-36 | The second pass leaves every GREEN cell of the first pass unchanged, and it never touches a position past the guess. |
| `Feedback.AllGreenIffSolved` | src/game_logic.rs:24-36 | Every cell is GREEN if and only if the guess has five letters and equals the first five letters of the solution. A shorter guess never scores all GREEN. |
| `Feedback.SolutionScoresAllGreen` | src/game_logic.rs:24-36 | Guessing the solution itself, when it has five letters, scores all GREEN. |
| `Feedback.FeedbackIdentifiesCandidates` | src/game_logic.rs:24-48 | A candidate solution explains every cell of the row the solution produced if and only if it would produce the same row. So the row rules out exactly the candidates that score the guess differently. |
| `Feedback.SolutionIsConsistent` | src/game_logic.rs:24-48 | The solution always explains the row it produced: GREEN cells hold its letter, YELLOW letters occur in it elsewhere, NONE letters do not occur in it. |
| `Feedback.GreenCountIsMatchCount` | src/game_logic.rs:24-31 | The number of GREEN cells equals the number of positions where guess and solution hold the same letter. |
| `Feedback.MarksPerLetter` | src/game_logic.rs:37-47 | For every letter, the number of coloured (GREEN or YELLOW) cells holding it is its number of occurrences in the guess when the solution contains it, and zero when it does not. Exact matches use up no letter count, and no cell of a letter absent from the solution is coloured. |
| `Feedback.RepeatedLetterExample` | src/game_logic.rs:37 | Guess "AAAAA" against "ABCDE" scores GREEN then four YELLOW. Five cells are coloured for a letter the solution holds once. |

## Left out

- The terminal front end in src/main.rs:15-58 is not modelled. It covers raw-mode and alternate-screen setup and teardown, ratatui layout and rendering, and key polling. It is terminal I/O with no algorithmic content, and it never calls `check_word`.
- `rand_from_array` (src/main.rs:62-65) is not modelled. It wraps the thread-local random generator, and its choice cannot be specified beyond the index bound.
- The `word_list` module (src/main.rs:1) is not part of this model. No dictionary-membership predicate is assumed.
- There is no game session, attempt counter, win/lose state, guess-length validation or restart logic in the code. None is modelled. The only state in the program is the two string buffers of the input loop (src/main.rs:21-22, 42-48), which are display plumbing.
- The panics of `check_word` are not modelled as an error result. The model states the inputs that avoid them as the precondition `CanCheck` instead: a guess of at most five characters and a solution at least as long as the guess.
- The heap-allocated `Vec` is modelled as a local Dafny array of five cells that is copied to a sequence on return. The caller cannot observe aliasing of the returned vector.
