# Trivia API request handlers, modelled in Dafny

This project models the request-handling layer of a trivia quiz backend. The
backend is a small REST API over two tables, questions and categories. It can
list questions ten to a page, search them, list the questions of one
category, delete and create questions, and pick a random quiz question that
has not been asked yet.

The database is replaced by what its queries mean:

- The question table is a sequence of `Question` rows, in the order a query
  returns them.
- A filtered query is an order-preserving `Filter` over that sequence.
- A lookup by primary key is `FindId`.
- The storage layer hands out ids from a serial counter, `nextId`.

Each handler returns a `Response`: either `Ok` with the fields of the JSON
body, or `Fail` with one of the registered errors. `ApiError.Code` and
`ApiError.Message` give the status and message of each error (400 "Bad
Request", 404 "Not found", 422 "Unprocessable Entity", 500 "Internal Server
Error").

Modules:

- `Models` (models.dfy): the entities, the errors and the response bodies.
- `Seqs` (seqs.dfy): `Filter`, and lemmas about how many times it keeps
  each element, appending, keeping every element or none, agreeing
  predicates, and narrowing the predicate.
- `PySlice` (pyslice.dfy): Python's `s[i:j]`. Negative bounds count from the
  end, and every bound is clipped to the list.
- `Text` (text.dfy): case-insensitive substring search, proved equal to a
  position-by-position definition.
- `Handlers` (handlers.dfy): the read-only endpoints. These are pagination,
  search, questions by category, and quiz selection.
- `Store` (store.dfy): class `QuestionStore`. Its mutable `questions` field
  is changed by `DeleteQuestion` and `CreateQuestion`.

The read-only handlers are functions of `store.questions` and
`store.categories`. They change nothing.

Three inputs are modelled as optional values:

- The `page` query argument is an `Option<int>`. An absent or non-integer
  argument falls back to page 1, as `request.args.get('page', 1, type=int)`
  does.
- The JSON fields of a create body may each be null (`None`).
- `previous_questions` and `quiz_category` may each be absent. So may the
  `id` inside `quiz_category`.

Page 0 is not page 1: the code computes the slice `[-10:0]`, which Python
makes empty whatever the list holds. `PageZeroIsEmpty` states this.

Some behaviour is modelled as written:

- `GET /categories/0/questions` reports `current_category` as null even
  when a category 0 exists. This is because the code tests the id for
  truthiness.
- A quiz request whose `quiz_category` has no `id` compares the category
  with NULL. No question matches, so the answer is "No more questions.".
- Flask's `<int:...>` route converter does not accept negative ids, and
  answers 404 itself. For categories the model checks this explicitly. For
  deletion it coincides with "no such question", because every stored id
  is at least 1.

## Model

| member | source | states |
|---|---|---|
| `Models.ApiError.Code` | backend/flaskr/__init__.py:176-206 | the registered error handlers answer 400, 404 and 422 for what the request got wrong and 500 for a server fault; this is also the envelope's `error` field |
| `Models.ApiError.Message` | backend/flaskr/__init__.py:176-206 | the envelope's `message` is fixed by the status: 400 "Bad Request", 404 "Not found", 422 "Unprocessable Entity", 500 "Internal Server Error" |
| `Models.CodesIdentifyErrors` | backend/flaskr/__init__.py:176-206 | two errors have the same status code exactly when they are the same error |
| `Models.QuizOutcome.Message` | backend/flaskr/__init__.py:159-171 | a quiz answer's `message` is "success" exactly when it carries a question, and "No more questions." exactly when it does not |
| `Seqs.Filter` | backend/flaskr/__init__.py:132-133 | a filtered query returns a row if and only if the row is stored and satisfies the condition, and never more rows than the table holds |
| `Seqs.FilterCounts` | backend/flaskr/__init__.py:132-133 | a filtered query returns each satisfying row as many times as it is stored, and no other row |
| `PySlice.SliceWindow` | backend/flaskr/__init__.py:61 | for `0 <= i <= j`, `s[i:j]` holds `s[i], s[i+1], ...`, stopping at `j` or at the end of `s`; it is empty when `i` is past the end |
| `PySlice.SliceSplit` | backend/flaskr/__init__.py:52-61 | adjacent slices `s[i:j]` and `s[j:k]` with non-negative bounds join into `s[i:k]` |
| `Handlers.ListQuestions` | backend/flaskr/__init__.py:43-65 | 422 exactly when the page is negative; otherwise at most ten questions, all from the store; `total_questions` is the size of the whole store for every page; `current_category` is always null; all categories are returned |
| `Handlers.PageWindow` | backend/flaskr/__init__.py:52-61 | for page `p >= 1`, position `k` of the page is the store's question at `(p-1)*10 + k`; the page has ten questions, or fewer only when the store runs out |
| `Handlers.PastLastPage` | backend/flaskr/__init__.py:52-61 | a page that starts past the last question is an empty success, not an error |
| `Handlers.PageZeroIsEmpty` | backend/flaskr/__init__.py:49-61 | page 0 is accepted and is always empty; it is not page 1 |
| `Handlers.DefaultPageIsFirst` | backend/flaskr/__init__.py:47 | a missing or non-integer `page` argument gives page 1 |
| `Handlers.PagesCoverStore` | backend/flaskr/__init__.py:52-61 | pages 1 to k, read in turn, are exactly the first `10k` questions in store order; once `10k` reaches the store size they are the whole store, so no question is skipped or repeated |
| `Text.ContainsOccurs` | backend/flaskr/__init__.py:112 | the substring search succeeds if and only if the pattern occurs at some position of the text |
| `Text.LowerOccurs` | backend/flaskr/__init__.py:112 | an exact occurrence in the lower-cased strings is the same as a case-insensitive occurrence in the originals |
| `Text.ContainsIgnoringCase` | backend/flaskr/__init__.py:112 | `ILIKE '%term%'` holds if and only if the term matches, ignoring case, at some position of the text |
| `Handlers.SearchQuestions` | backend/flaskr/__init__.py:109-120 | always a success; a question is returned if and only if it is stored and its question text (not its answer) contains the term, ignoring case; each matching row is returned as many times as it is stored; `total_questions` is the number returned; `current_category` is null |
| `Handlers.SingleMatch` | backend/flaskr/__init__.py:111-118 | when exactly one stored question mentions the term, the search returns that question alone and `total_questions` is 1 |
| `Handlers.EmptySearchFindsAll` | backend/flaskr/__init__.py:112 | the empty search term returns every question, in store order |
| `Handlers.SearchIgnoresCaseOfTerm` | backend/flaskr/__init__.py:112 | a term and its lower-case form return the same questions |
| `Handlers.AppendedQuestionFound` | backend/flaskr/__init__.py:112-113 | a question added to the store is returned last by exactly the searches whose term its text contains; the other results are unchanged |
| `Handlers.QuestionsByCategory` | backend/flaskr/__init__.py:125-140 | 404 if and only if the id is negative or names no category; otherwise exactly the questions of that category, each as many times as it is stored, with `total_questions` their number and `current_category` the id, or null when the id is 0 |
| `Handlers.AppendedQuestionListed` | backend/flaskr/__init__.py:132-138 | a question added to the store is listed last under its own category; no other category's listing changes |
| `Handlers.QuizCandidates` | backend/flaskr/__init__.py:152-157 | the quiz draws from exactly the stored questions that were not asked before and belong to the chosen category; category 0 means any category |
| `Handlers.QuizQuestion` | backend/flaskr/__init__.py:143-171 | 422 if and only if `previous_questions` or `quiz_category` is missing; otherwise either a stored, eligible question, or "No more questions." exactly when no stored question is eligible |
| `Handlers.QuizProgress` | backend/flaskr/__init__.py:152-157 | adding the asked question's id to `previous_questions` leaves strictly fewer candidates, so a quiz runs out after at most as many rounds as there are questions |
| `Store.FindId` | backend/flaskr/__init__.py:70 | the lookup by id finds a row with that id, or reports none exactly when no row has it |
| `Store.QuestionStore.DeleteQuestion` | backend/flaskr/__init__.py:68-80 | 404, with the store unchanged, if and only if no question has the id; otherwise exactly that row is removed, the rest stay in order, the id is gone, and `deleted` is the id; ids stay unique |
| `Store.QuestionStore.CreateQuestion` | backend/flaskr/__init__.py:83-106 | 422, with the store unchanged, if and only if one of the four fields is null; otherwise exactly one row is appended; its id was not in use, and its question, answer, category and difficulty echo the body |
| `Store.RemovedRow` | backend/flaskr/__init__.py:74 | removing one row from rows with unique ids keeps them unique, and loses exactly the rows with that id |
| `Store.CreateThenDelete` | backend/flaskr/__init__.py:68-106 | deleting a just-created question by its new id succeeds and restores the question table: deletion undoes creation |

## Left out

- Framework plumbing is left out: the Flask app, routing decorators, CORS, the `after_request` headers, and JSON serialisation. So is the `status_code` field that some bodies repeat. None of these has logic of its own.
- The database and `setup_db` are left out. Rows are a sequence in the order a query returns them. SQL without `ORDER BY` promises no order, and the model fixes the one order the sequence has.
- `get_categories` (backend/flaskr/__init__.py:32-40) is not a separate member. It returns the category rows unchanged. `ListQuestions` returns them the same way, as `store.categories`.
- `Handlers.QuizQuestion` does not model uniformity. The database orders rows by `random()` and takes the first; the model only promises that some eligible question is returned.
- `Text.ContainsIgnoringCase` treats the term as plain text. In `ILIKE`, `%` and `_` in the term act as wildcards, and a backslash escapes the character after it, because PostgreSQL's default `LIKE` escape character is backslash and the pattern built at backend/flaskr/__init__.py:112 sets no other. So the term `a\b` matches the text "ab" and not "a\b". The model does none of this. Case folding covers ASCII letters only, not Unicode.
- Body-parsing failures are left out, because the handlers take already-parsed fields:
  - A malformed body gives 400.
  - A missing `question`, `answer`, `category`, `difficulty` or `searchTerm` key raises `KeyError`, and the framework turns that into 500.
  - A `quiz_category` that is not an object raises an error and gives 500.
- JSON values of other types are left out:
  - A null `searchTerm` is formatted as the text "None".
  - In Python `False == 0`, so a `quiz_category.id` of `false` means any category.
  - A null in `previous_questions` makes SQL's `NOT IN` match no row.
- Integer widths of the database columns are not modelled. Ids, categories and difficulties are unbounded integers.
- Database failures are left out. Any such failure would give 500.
