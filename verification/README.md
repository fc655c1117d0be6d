# English vocabulary trainer — verified model

This project models the core of a small spaced-repetition vocabulary trainer:

- the word store (`WordList` in `engword.py`): adding and deleting words, reading and resetting a word's level, the counts, the selection of the words that are due for review, and `update_word`, which records an answer and moves the word's level up or down;
- the masking step of the question generator (`QGen.generate_question`): the sentence that describes a word has every occurrence of the word replaced by a run of `*` of equal length, and then loses its line breaks;
- the timed check session (`CheckSession` in `main.py`): a quiz over a frozen snapshot of the due words, with one tick counter per word and a time limit of 30 ticks.

Modules, one per file:

| file | module | what it holds |
|---|---|---|
| `wrappers.dfy` | `Wrappers` | `Option` and `Result` |
| `masking.dfy` | `Masking` | Python's `str.replace` for the word and for line breaks; the masked question |
| `word_store.dfy` | `WordStore` | records, the store as a sequence of rows, the store operations |
| `scheduling.dfy` | `Scheduling` | the review interval table and the due-word filter |
| `level_machine.dfy` | `LevelMachine` | `update_word` as a reference rule on one record, and as the sequence of column writes the code performs |
| `check_session.dfy` | `CheckSession` | the session state machine |

Modelling choices:

- The store is a `seq<Record>` in row order. A word may in principle appear in several rows, for example when it is loaded from a file. So every lookup reads the first row with the word, and every attribute write rewrites all rows with the word, as the pandas code does. The store invariant `WellFormed` adds that words are distinct and that each record is valid. `add_word`, `delete_word`, `update_word` and `reset_memorizing_level` preserve that invariant.
- Timestamps are integers in microseconds. The clock is a parameter `now`.
- The language-model call is a parameter `compose: string -> string`. The question stored for a word `w` is `Mask(compose(w), w)`.
- The sentinel of `_get_word_attribute`, which returns the word itself when the word is missing, is an `Option`.
- The exceptions the session can raise become `Result` errors:
  - `MissingSnapshot`: reading progress or the question before the first `start`;
  - `IndexOutOfRange`: answering, or timing out, while running on an empty snapshot.
- A session step returns the `update_word` call it makes as a `Verdict`. `Commit` carries that call out on the store, so each session call is modelled as the step followed by `Commit`.

Behaviour of the code worth knowing (the model follows the code in each case):

- A new record starts with `result` set to True. There is no "unset" state.
- The first failure after a correct answer sets `false_count` to 1. Further consecutive failures increment it. The third consecutive failure demotes, unless the level is 0.
- Promotion is not capped. A second correct answer in a row at level 6 gives level 7, which is no longer counted as memorized. Its review threshold is that of level 0, so the word is due again at once (`LevelMachine.PromotionBeyondMemorized`).
- `start` does not reset the tick counter.
- After the last word, the progress reads one past the total.
- Masking follows Python's `str.replace`: occurrences are replaced left to right without overlap, so for "banana" and "ana" only the first "ana" is masked (`Masking.SelfOverlapExamples`).
- Masking replaces the word before it removes line breaks. A word split by a line break in the generated sentence therefore survives into the question (`Masking.LineBreakInsideWordIsNotMasked`).

## Model

| member | source | states |
|---|---|---|
| Masking.MaskOccurrences | engword.py:156-157 | replacing the word keeps the sentence's length, and every character is either kept or turned into `*` (which ones, `MaskOccurrencesExact` states) |
| Masking.MaskOccurrencesExact | engword.py:156-157 | at every position, the character becomes `*` exactly when it lies inside an occurrence the left-to-right scan replaces, and is kept otherwise; an occurrence is replaced when no replaced occurrence starts in the word-length window before it |
| Masking.ReachedShift | engword.py:156-157 | once the scan is past a prefix that no replaced occurrence crosses, the replaced occurrences in the rest are those of the rest on its own, shifted by the prefix length |
| Masking.MaskStarsReachedOccurrence | engword.py:156-157 | every occurrence the left-to-right scan replaces becomes `*` repeated the word's length |
| Masking.UnoverlappedIsReached | engword.py:156-157 | an occurrence that no other occurrence overlaps from the left, such as the first one, is replaced |
| Masking.SelfOverlapExamples | engword.py:156-157 | for a word that overlaps itself only the occurrences the scan reaches are replaced: "banana" for "ana" gives "b***na", "aaa" for "aa" gives "**a" |
| Masking.MaskOccurrencesHidesWord | engword.py:156-157 | after the replacement, a non-empty word that contains no `*` occurs nowhere in the text |
| Masking.MaskKeepsUncovered | engword.py:156-157 | every character that lies inside no occurrence of the word is kept as it is |
| Masking.DropChar | engword.py:158 | removing line breaks leaves none, keeps every other character with its multiplicity, and shortens the text by the number of line breaks |
| Masking.DropCharCons | engword.py:158 | removing line breaks acts on the first character alone: it is dropped if it is a line break and kept in front otherwise |
| Masking.DropCharAppend | engword.py:158 | removing line breaks from a concatenation is removing them from each part, so the remaining characters keep their order |
| Masking.DropAbsent | engword.py:158 | removing line breaks from a text that has none returns the text unchanged |
| Masking.MaskKeepsLineBreaks | engword.py:156-157 | replacing a word that has no line break keeps every line break of the sentence |
| Masking.Mask | engword.py:154-159 | the question is the sentence with the word replaced, followed by line-break removal; it never contains a line break; for a word without line breaks its length is the sentence length minus the sentence's line breaks |
| Masking.MaskHidesWord | engword.py:154-159 | for a single-line sentence, the question never contains the word it is about |
| Masking.LineBreakInsideWordIsNotMasked | engword.py:156-158 | the sentence "ca\nt" for the word "cat" becomes the question "cat", which shows the word, because line breaks are removed only after masking |
| WordStore.Question | engword.py:35 | the question stored for a word has no line break, whatever the generator returns |
| WordStore.IndexOf | engword.py:68-73 | finds the first row holding the word, and nothing exactly when the word is absent |
| WordStore.Find | engword.py:68-73 | a record is found exactly when the word is in the store, and it is a row of the store holding that word |
| WordStore.GetLevelUnique | engword.py:54-73 | on a store without duplicates, the level read for a word is the level of its one row |
| WordStore.UpdateAttribute | engword.py:75-81 | reports True exactly when the word is present; otherwise the store is unchanged; every row with the word gets the new value, every other row is untouched, and the set of words is kept |
| WordStore.RewriteAt | engword.py:78 | on a store where the word has one row, an attribute write replaces exactly that row |
| WordStore.AddWord | engword.py:31-38 | an existing word gives "Failed" and an unchanged store; a new word gives "OK" and is appended, keeping the earlier rows, with both timestamps at `now`, its masked question, result True, false count 0 and level 0 |
| WordStore.AddWordCount | engword.py:31-38 | adding raises the number of distinct words by one for a new word and by zero for an existing one |
| WordStore.AddPreservesWellFormed | engword.py:31-38 | adding a word keeps the words distinct and every record valid |
| WordStore.AddThenGetLevel | engword.py:35 | a newly added word reads back at level 0 |
| WordStore.AddKeepsMemorized | engword.py:31-52 | adding a word leaves the memorized count unchanged |
| WordStore.Remove | engword.py:42 | keeps exactly the rows of other words, in their order; the word leaves the set of words and nothing else does |
| WordStore.RemoveCounts | engword.py:42 | every row of another word is kept as many times as it was stored, and no row of the word remains |
| WordStore.DeleteWord | engword.py:40-46 | reports True exactly when the word was present, removes all its rows and keeps every other row in order and with its multiplicity; an absent word leaves the store unchanged |
| WordStore.RemoveAppended | engword.py:42 | removing a word that was appended last restores the store that came before it |
| WordStore.DeleteUndoesAdd | engword.py:31-46 | deleting a word just added restores the original store and reports True |
| WordStore.DeleteDropsOne | engword.py:40-46 | on a store without duplicates, deleting a present word removes exactly one row |
| WordStore.DeletePreservesWellFormed | engword.py:40-46 | deleting keeps the words distinct and every record valid |
| WordStore.SubsequenceUnique | engword.py:104 | a filtered copy of a store without duplicates has no duplicates and holds only rows of the original |
| WordStore.TotalWords | engword.py:48-49 | the number of distinct words is at most the number of rows, and is 0 exactly for an empty store |
| WordStore.WordsBound | engword.py:48-49 | a store never holds more distinct words than rows |
| WordStore.UniqueWordCount | engword.py:48-49 | when words are distinct, the number of distinct words equals the number of rows |
| WordStore.CountLevel | engword.py:51-52 | the number of rows at a level is at most the number of rows, and is 0 exactly when no row has that level |
| WordStore.MemorizedWords | engword.py:51-52 | the memorized count is at most the number of rows, and is 0 exactly when no row is at level 6 |
| WordStore.CountLevelAppend | engword.py:51-52 | appending a row changes the count at a level by one exactly when the row has that level |
| WordStore.CountLevelUpdate | engword.py:51-52 | replacing one row changes the count at a level by the old row leaving and the new row joining |
| WordStore.GetLevel | engword.py:54-63 | a level is returned exactly when the word is present, and it is the level of a row holding the word |
| WordStore.ResetLevel | engword.py:65-66 | reports True exactly when the word is present; every row of the word goes to level 0 with its other fields kept; other rows are untouched |
| WordStore.ResetThenGetLevel | engword.py:65-66 | after a reset, a present word reads back at level 0 and an absent word is still absent |
| WordStore.ResetPreservesWellFormed | engword.py:65-66 | a reset keeps the store well-formed |
| Scheduling.Threshold | engword.py:84-97 | the waiting time of a level is at most 30 days, and is 0 exactly at levels 0 and 6, above 6, and at the negative indices -1 and -7 that read those entries |
| Scheduling.DueWords | engword.py:99-107 | keeps exactly the rows whose time since the last answer reaches their level's threshold, in store order, without adding duplicates |
| Scheduling.DueWordsCounts | engword.py:104 | each due row is kept as many times as it is stored, and no other row appears |
| Scheduling.NumDueWords | engword.py:109-111 | the due count is at most the number of rows, and is 0 exactly when no row is due |
| Scheduling.DueCount | engword.py:109-111 | on a store without duplicates, the due count is the number of distinct due words and never exceeds the total word count |
| Scheduling.DueStaysDue | engword.py:99-104 | a due word stays due as time passes |
| Scheduling.DueRightAfterAnswer | engword.py:84-97 | right after an answer, a word is due again exactly when its level is 0 or at least 6 |
| Scheduling.LongestInterval | engword.py:84-97 | every word answered 30 days ago or earlier is due |
| LevelMachine.Assign | engword.py:75-81 | a column write rewrites exactly the rows of the word; writes other than the answer time or the result keep those two fields |
| LevelMachine.Stamp | engword.py:118-119 | the rows of the word get the answer time and result; other rows are untouched |
| LevelMachine.Promote | engword.py:121-124 | promotion touches only the rows of the word and keeps their answer time and result |
| LevelMachine.PromoteAt | engword.py:121-124 | where the word has one row, promotion raises that row's level by one and installs the new question |
| LevelMachine.CountFailure | engword.py:130-140 | a repeated failure touches only the rows of the word and keeps their answer time and result |
| LevelMachine.CountFailureAt | engword.py:130-140 | where the word has one row, a repeated failure acts on that row as the reference rule prescribes |
| LevelMachine.Reschedule | engword.py:120-140 | the level and count update touches only the rows of the word and keeps their answer time and result |
| LevelMachine.RescheduleAt | engword.py:120-140 | where the word has one row, the level and count update replaces that row with the reference rule's result |
| LevelMachine.UpdateWord | engword.py:113-141 | reports True exactly when the word is present; an absent word leaves the store unchanged; the rows of the word get the answer time and result; other rows are untouched |
| LevelMachine.UpdateWordIsAnswered | engword.py:113-141 | on a store without duplicates, `update_word` replaces the word's one row with the reference rule's answered record and changes nothing else |
| LevelMachine.AnsweredSteps | engword.py:118-140 | an answer keeps the word and registration time and records the time and result; the level rises exactly when this answer and the previous one are correct; it falls exactly on a third consecutive failure above level 0; it moves by at most one; the question is regenerated exactly on promotion |
| LevelMachine.AnsweredKeepsValid | engword.py:118-140 | an answer keeps a record valid: the level is never negative, a correct record has no failures, and above level 0 the failure count stays below 3 |
| LevelMachine.UpdateWordPreservesWellFormed | engword.py:113-141 | `update_word` keeps the store well-formed |
| LevelMachine.ThreeFailuresDemote | engword.py:126-136 | three failures in a row after a correct answer lower the level by one and clear the count |
| LevelMachine.FailureAtFloor | engword.py:131-138 | at level 0, a repeated failure keeps level 0 and still increments the failure count |
| LevelMachine.RecoveryTakesTwo | engword.py:120-129 | after a failure, the first correct answer only clears the count; the second one promotes |
| LevelMachine.PromotionBeyondMemorized | engword.py:120-124 | a correct answer to a memorized word whose previous answer was also correct gives level 7, lowers the memorized count by one and makes the word due at once |
| CheckSession.InitialValid | main.py:7-11 | a new session satisfies the session invariant and has no snapshot |
| CheckSession.Start | main.py:17-25 | a running session is unchanged; otherwise the snapshot is the due-row filter of the store (each due row as often as stored, in store order), from the first word with no correct answers, and the tick counter is kept; the invariant is preserved |
| CheckSession.StartSnapshotValid | main.py:21 | a snapshot taken from a well-formed store holds valid records with distinct words |
| CheckSession.Stop | main.py:27-33 | only a running session changes: it stops, and its snapshot and counters are kept |
| CheckSession.Tick | main.py:35-49 | idle sessions and ticks within the limit change only the counter; past the limit, the current word is failed, the session moves to the next word with the counter at 0 and ends after the last word; a fault happens exactly when the running snapshot is empty and the limit is passed; the invariant is preserved |
| CheckSession.Answer | main.py:67-84 | idle sessions reply neutrally; a wrong word changes nothing; the exact word is recorded as correct, counted, and the session moves on with the counter at 0 and ends after the last word; a fault happens exactly when the running snapshot is empty; the invariant is preserved |
| CheckSession.Commit | main.py:42 | carrying out a verdict keeps the store's length, stamps the rows of the verdict's word with the time and result, and leaves every other row alone |
| CheckSession.CommitKeepsWellFormed | main.py:73 | a session's `update_word` call keeps the store well-formed |
| CheckSession.VerdictsNameCurrentWord | main.py:72-73 | every `update_word` call a step makes is for the word on screen; a timeout records a failure; only a correct reply records a success |
| CheckSession.ResetCount | main.py:57-59 | only the counter changes, to 0 |
| CheckSession.GetProgress | main.py:51-52 | fails exactly before the first start; otherwise reports the one-based position, the snapshot size and the correct count |
| CheckSession.GetCount | main.py:54-55 | reports the session's tick counter against the limit of 30; for a valid session, the ticks never exceed the limit |
| CheckSession.GetQuestion | main.py:61-65 | fails exactly before the first start; otherwise shows the current snapshot record's question, or "" past the end |
| CheckSession.ShownQuestionIsSingleLine | main.py:61-65 | a question shown from a valid snapshot is one line |
| CheckSession.SnapshotFrozen | main.py:21 | no session call except `start` changes the snapshot |
| CheckSession.Ticks | main.py:35-49 | repeated ticks leave an idle session and the store alone |
| CheckSession.TicksBelowLimit | main.py:39-41 | any number of ticks that stays within the limit only advances the counter |
| CheckSession.TimeoutFailsWord | main.py:39-47 | 31 ticks on a fresh word record it as a wrong answer and move to the next word, ending the session after the last |
| CheckSession.ResetDefersTimeout | main.py:57-59 | after a counter reset, 30 ticks leave the current word in place and the store unchanged |
| CheckSession.CorrectAnswerMovesOn | main.py:72-82 | a correct answer before the last word advances the progress by one, counts the answer and shows the next word's question |
| CheckSession.LastAnswerEndsSession | main.py:79-82 | a correct answer to the last word ends the session; the question becomes "", the progress reads one past the total, and later answers are neutral |
| CheckSession.TwoWordSession | main.py:35-84 | over two due words: answering the first gives progress 2 of 2 with one correct and the second question; 31 ticks then end the session at progress 3 of 2; a later answer is neutral |

## Left out

- Persistence: `__init__` loading the JSON file and `save_json` are file I/O. The store is the sequence of rows it would hold.
- The question generator's language-model call and its prompt are a foreign service. They are the `compose` parameter; only the masking applied to its output is modelled.
- Timestamps are integers rather than formatted strings parsed back by pandas. The two clock readings in `add_word` are one instant `now`.
- pandas row labels and `reset_index` are left out: rows are identified by position.
- The Gradio user interface and the module-level wiring in `main.py` are left out, because they are UI glue around the modelled calls.
- `Scheduling.DueWords` requires every level to be at least -7. Below that, Python's list indexing raises IndexError, and that error is not modelled as a result. Levels of a well-formed store are never negative.
- `CheckSession.Tick` does not model the partially updated session when the empty-snapshot IndexError is raised. The code has already incremented the counter at that point; the model returns only the fault.
- `CheckSession.Ticks` uses one clock reading for all the ticks it covers, where the code reads the clock on each timeout.
- The `print` in `answer` is left out, because it is console output.
- `LevelMachine.UpdateWord` does not model a failure of the question generator during promotion (engword.py:124). The answer time, the result and the new level are already written at that point while the old question stays. `compose` is a total function, so the model always installs the new question.
