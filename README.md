# Flashcard quiz backend — Dafny model

This project models the quiz core of the flashcards API backend (`main.py`):

- a constant table of vocabulary `Word` records, where each record has an id, the word, an audio URL, three candidate images and the index of the correct image;
- the random-word endpoint, which returns some record of that table;
- the answer-check endpoint. It finds the first record whose id equals `word_id`. If there is none, it answers "Word not found". Otherwise it reports whether `choice_index` equals the record's stored `correctIndex`, together with that index.

`Wrappers` (wrappers.dfy) holds the `Option` type. `Quiz` (quiz.dfy) holds the data model, the table, both endpoints and the lemmas about them.

The table is a Dafny `const`, and both endpoints are a function and a method with no `modifies` clause. So neither endpoint can change the table, and every call sees the same table.

The quiz the code implements differs from a design with random distractors, shuffling and a client-supplied correct index. In the code, each record stores its own three images and a fixed `correctIndex`. The check looks the record up by id and compares against that stored index. The model follows the code: it has no distractor sampling and no shuffling.

## Model

| member | source | states |
|---|---|---|
| Quiz.FindWord | main.py:82 | the lookup returns nothing exactly when no record has the id; otherwise it returns the record at the first position with that id, in table order |
| Quiz.CheckAnswerIn | main.py:80-90 | not-found (with the message "Word not found") exactly when no record has the id; otherwise `isCorrect` is `choice_index == correctIndex` of the first matching record, and the returned `correctIndex` is that record's stored index |
| Quiz.CheckAnswer | main.py:40-90 | over the word table: not-found exactly when the id is not 1, 2 or 3; otherwise the answer is correct exactly for choice 0, and 0 is reported as the correct index |
| Quiz.GetRandomWord | main.py:76-78 | the returned record is a member of the table, is well formed, and answering it with its own correct index is judged correct |
| Quiz.TableWellFormed | main.py:40-74 | the table has three records, each with exactly three images and a correct index within them, and the ids are distinct |
| Quiz.FindWordDistinct | main.py:42-82 | when ids are distinct, looking up a record's own id finds exactly that record |
| Quiz.CorrectChoiceAccepted | main.py:82-90 | when ids are distinct, checking a record's id with any choice yields `isCorrect` exactly when the choice equals its stored index, and always reports that index |
| Quiz.ResultIgnoresChoice | main.py:82-90 | whether the id is found, and the reported correct index, do not depend on the submitted choice |
| Quiz.OutOfRangeChoiceIsWrong | main.py:45-86 | over a well-formed table, a choice below 0 or above 2 is never judged correct, even though the check does no range test |
| Quiz.CorrectnessByIndexNotImage | main.py:42-86 | the coffee record shows the same image at all three positions, yet only choice 0 is accepted: correctness is decided by index, not image content |

## Left out

- HTTP routing, CORS middleware, the static `/assets` mount and the uvicorn startup (main.py:10-26, 99-101) are framework plumbing with no logic to state.
- `get_audio` (main.py:92-97) is a filesystem existence check. It is I/O, so it is not modelled.
- Response-model validation is left out. The not-found dict does not match `AnswerCheck`, so the framework would reject it at runtime. The model returns a separate `NotFound` result instead.
- Quiz.GetRandomWord: states only that the pick is a member of the table. The uniformity of `random.choice` is a statistical property and is not stated. The random source is modelled as a nondeterministic choice of index.
- The `if not word` test (main.py:83) is modelled as "no record found". A matched record is a non-empty dict, and a non-empty dict is never falsy.
- The media scripts (generate_images.py, generate_audio.py, generate_word_audios.py, download_images.py) are network, TTS and file I/O around third-party APIs. They are not part of this model.
