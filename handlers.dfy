/**
 * The read-only endpoints of the trivia API, as total functions of the rows
 * the database would return: question listing with pagination, search,
 * questions of a category, and quiz-question selection.
 */
module Handlers {
  import opened Models
  import opened Seqs
  import PySlice
  import Text

  /** Page size of `GET /questions`. */
  const QuestionsPerPage: int := 10

  /** The `page` query argument: absent, or not an integer, means page 1. */
  function PageNumber(arg: Option<int>): int {
    match arg
    case None => 1
    case Some(p) => p
  }

  /** `GET /questions?page=N`: a negative page is refused; otherwise the
      Python slice `[(page-1)*10 : page*10]` of every question, with the
      unwindowed total and every category. */
  function ListQuestions(questions: seq<Question>, categories: seq<Category>, pageArg: Option<int>)
    : (r: Response<QuestionPage>)
    ensures r.Fail? <==> PageNumber(pageArg) < 0
    ensures r.Fail? ==> r.error == Unprocessable
    ensures r.Ok? ==> r.body.totalQuestions == |questions|
    ensures r.Ok? ==> r.body.currentCategory == None && r.body.categories == categories
    ensures r.Ok? ==> |r.body.questions| <= QuestionsPerPage
    ensures r.Ok? ==> forall q :: q in r.body.questions ==> q in questions
  {
    var page := PageNumber(pageArg);
    if page < 0 then
      Fail(Unprocessable)
    else
      var start := (page - 1) * QuestionsPerPage;
      var end := page * QuestionsPerPage;
      var window := PySlice.Slice(questions, start, end);
      Ok(QuestionPage(window, |questions|, None, categories))
  }

  /** Where page `p` starts in the list of all questions. */
  function PageStart(p: int): int {
    (p - 1) * QuestionsPerPage
  }

  /** Page `p >= 1` holds the questions at positions `(p-1)*10` onwards,
      at most ten of them, and fewer only when the store runs out. */
  lemma PageWindow(questions: seq<Question>, categories: seq<Category>, p: int)
    requires p >= 1
    ensures ListQuestions(questions, categories, Some(p)).Ok?
    ensures var page := ListQuestions(questions, categories, Some(p)).body.questions;
      && |page| == (if |questions| <= PageStart(p) then 0
                    else if |questions| - PageStart(p) < QuestionsPerPage then |questions| - PageStart(p)
                    else QuestionsPerPage)
      && forall k :: 0 <= k < |page| ==> page[k] == questions[PageStart(p) + k]
  {
    PySlice.SliceWindow(questions, PageStart(p), p * QuestionsPerPage);
  }

  /** A page past the last question is an empty success, not an error. */
  lemma PastLastPage(questions: seq<Question>, categories: seq<Category>, p: int)
    requires p >= 1 && PageStart(p) >= |questions|
    ensures ListQuestions(questions, categories, Some(p)) == Ok(QuestionPage([], |questions|, None, categories))
  {
    PageWindow(questions, categories, p);
  }

  /** Page 0 is not page 1: its slice is `[-10:0]`, which is always empty. */
  lemma PageZeroIsEmpty(questions: seq<Question>, categories: seq<Category>)
    ensures ListQuestions(questions, categories, Some(0)) == Ok(QuestionPage([], |questions|, None, categories))
  {
  }

  /** Leaving out `page` (or sending a non-integer) shows page 1. */
  lemma DefaultPageIsFirst(questions: seq<Question>, categories: seq<Category>)
    ensures ListQuestions(questions, categories, None) == ListQuestions(questions, categories, Some(1))
  {
  }

  /** The questions of pages 1 to k, in page order. */
  function FirstPages(questions: seq<Question>, categories: seq<Category>, k: nat): seq<Question>
  {
    if k == 0 then []
    else FirstPages(questions, categories, k - 1) + ListQuestions(questions, categories, Some(k)).body.questions
  }

  /** Reading pages 1, 2, ..., k in turn shows the first 10k questions in
      store order, each exactly once; so no question is skipped or repeated. */
  lemma {:induction false} PagesCoverStore(questions: seq<Question>, categories: seq<Category>, k: nat)
    ensures FirstPages(questions, categories, k) == PySlice.Slice(questions, 0, k * QuestionsPerPage)
    ensures |questions| <= k * QuestionsPerPage ==> FirstPages(questions, categories, k) == questions
  {
    if k > 0 {
      PagesCoverStore(questions, categories, k - 1);
      PySlice.SliceSplit(questions, 0, (k - 1) * QuestionsPerPage, k * QuestionsPerPage);
    }
  }

  /** `POST /questions/searches`: the questions whose text contains the
      search term, ignoring case; the answer is not searched. An empty
      result is still a success. */
  function SearchQuestions(questions: seq<Question>, searchTerm: string): (r: Response<QuestionList>)
    ensures r.Ok?
    ensures forall q :: q in r.body.questions <==> q in questions && Text.Mentions(q.question, searchTerm)
    ensures forall q :: multiset(r.body.questions)[q]
                        == if Text.Mentions(q.question, searchTerm) then multiset(questions)[q] else 0
    ensures r.body.totalQuestions == |r.body.questions|
    ensures r.body.currentCategory == None
  {
    var matches := (q: Question) => Text.ContainsIgnoringCase(q.question, searchTerm);
    FilterCounts(questions, matches);
    var found := Filter(questions, matches);
    Ok(QuestionList(found, |found|, None))
  }

  /** When exactly one stored question mentions the term, the search
      returns that question alone and reports one result. */
  lemma SingleMatch(questions: seq<Question>, searchTerm: string, i: nat)
    requires i < |questions|
    requires forall j :: 0 <= j < |questions| ==> (Text.Mentions(questions[j].question, searchTerm) <==> j == i)
    ensures SearchQuestions(questions, searchTerm).body.questions == [questions[i]]
    ensures SearchQuestions(questions, searchTerm).body.totalQuestions == 1
  {
    var matches := (q: Question) => Text.ContainsIgnoringCase(q.question, searchTerm);
    var before, after := questions[..i], questions[i + 1..];
    assert questions == before + ([questions[i]] + after);
    FilterAppend(before, [questions[i]] + after, matches);
    FilterAppend([questions[i]], after, matches);
    NoneMatch(before, matches);
    NoneMatch(after, matches);
  }

  /** The empty search term matches every question. */
  lemma {:induction false} EmptySearchFindsAll(questions: seq<Question>)
    ensures SearchQuestions(questions, "").body.questions == questions
  {
    forall i | 0 <= i < |questions| ensures Text.ContainsIgnoringCase(questions[i].question, "") {
      assert Text.MatchesAt(questions[i].question, "", 0);
    }
    FilterAll(questions, (q: Question) => Text.ContainsIgnoringCase(q.question, ""));
  }

  /** Searching for a term and for its lower-case form finds the same
      questions: "PENICILLIN" and "penicillin" are one search. */
  lemma SearchIgnoresCaseOfTerm(questions: seq<Question>, searchTerm: string)
    ensures SearchQuestions(questions, searchTerm) == SearchQuestions(questions, Text.Lower(searchTerm))
  {
    var lowered := Text.Lower(searchTerm);
    assert Text.Lower(lowered) == Text.Lower(searchTerm);
    FilterCongruent(questions,
      (q: Question) => Text.ContainsIgnoringCase(q.question, searchTerm),
      (q: Question) => Text.ContainsIgnoringCase(q.question, lowered));
  }

  /** A category with the given id is stored. */
  predicate CategoryExists(categories: seq<Category>, id: int) {
    exists i :: 0 <= i < |categories| && categories[i].id == id
  }

  /** `GET /categories/<id>/questions`: 404 for an id the route does not
      accept (a negative one) or that names no category; otherwise every
      question of that category, echoing the id unless it is 0. */
  function QuestionsByCategory(questions: seq<Question>, categories: seq<Category>, categoryId: int)
    : (r: Response<QuestionList>)
    ensures r.Fail? <==> categoryId < 0 || !CategoryExists(categories, categoryId)
    ensures r.Fail? ==> r.error == NotFound
    ensures r.Ok? ==> forall q :: q in r.body.questions <==> q in questions && q.category == categoryId
    ensures r.Ok? ==> forall q :: multiset(r.body.questions)[q]
                                  == if q.category == categoryId then multiset(questions)[q] else 0
    ensures r.Ok? ==> r.body.totalQuestions == |r.body.questions|
    ensures r.Ok? && categoryId != 0 ==> r.body.currentCategory == Some(categoryId)
    ensures r.Ok? && categoryId == 0 ==> r.body.currentCategory == None
  {
    if categoryId < 0 || !CategoryExists(categories, categoryId) then
      Fail(NotFound)
    else
      var inCategory := (q: Question) => q.category == categoryId;
      FilterCounts(questions, inCategory);
      var found := Filter(questions, inCategory);
      Ok(QuestionList(found, |found|, if categoryId != 0 then Some(categoryId) else None))
  }

  /** A question appended to the store (as creation does) is listed last
      under its own category, and the listing of any other category does
      not change. */
  lemma AppendedQuestionListed(questions: seq<Question>, categories: seq<Category>, categoryId: int, added: Question)
    requires 0 <= categoryId && CategoryExists(categories, categoryId)
    ensures QuestionsByCategory(questions + [added], categories, categoryId).body.questions
         == QuestionsByCategory(questions, categories, categoryId).body.questions
            + (if added.category == categoryId then [added] else [])
  {
    FilterAppend(questions, [added], (q: Question) => q.category == categoryId);
  }

  /** A question appended to the store is found, last, by exactly the
      searches whose term its text contains. */
  lemma AppendedQuestionFound(questions: seq<Question>, searchTerm: string, added: Question)
    ensures SearchQuestions(questions + [added], searchTerm).body.questions
         == SearchQuestions(questions, searchTerm).body.questions
            + (if Text.Mentions(added.question, searchTerm) then [added] else [])
  {
    FilterAppend(questions, [added], (q: Question) => Text.ContainsIgnoringCase(q.question, searchTerm));
  }

  /** The `quiz_category` object of a quiz request; its `id` may be missing. */
  datatype QuizCategory = QuizCategory(id: Option<int>)

  /** A question the quiz may ask next: not asked before, and of the chosen
      category unless that category is 0, which stands for any category. */
  predicate Eligible(q: Question, previous: seq<int>, categoryId: Option<int>) {
    q.id !in previous && (categoryId == Some(0) || categoryId == Some(q.category))
  }

  /** The rows the quiz query draws from: category 0 drops the category
      filter; a missing id compares the category with NULL, which no
      question matches. */
  function QuizCandidates(questions: seq<Question>, previous: seq<int>, categoryId: Option<int>)
    : (r: seq<Question>)
    ensures forall q :: q in r <==> q in questions && Eligible(q, previous, categoryId)
  {
    if categoryId != Some(0) then
      Filter(questions, (q: Question) => Some(q.category) == categoryId && q.id !in previous)
    else
      Filter(questions, (q: Question) => q.id !in previous)
  }

  /** `POST /quizzes`: 422 unless both `previous_questions` and
      `quiz_category` are given; otherwise some eligible question, chosen by
      the database at random, or "No more questions." exactly when none is
      eligible. */
  method QuizQuestion(questions: seq<Question>, previousQuestions: Option<seq<int>>, quizCategory: Option<QuizCategory>)
    returns (r: Response<QuizOutcome>)
    ensures r.Fail? <==> previousQuestions.None? || quizCategory.None?
    ensures r.Fail? ==> r.error == Unprocessable
    ensures r.Ok? && r.body.Next? ==>
      r.body.question in questions && Eligible(r.body.question, previousQuestions.value, quizCategory.value.id)
    ensures r.Ok? ==>
      (r.body.NoMoreQuestions? <==> forall q :: q in questions ==> !Eligible(q, previousQuestions.value, quizCategory.value.id))
  {
    if quizCategory.None? || previousQuestions.None? {
      return Fail(Unprocessable);
    }
    var candidates := QuizCandidates(questions, previousQuestions.value, quizCategory.value.id);
    if |candidates| > 0 {
      assert candidates[0] in candidates;
      var q :| q in candidates;
      r := Ok(Next(q));
    } else {
      r := Ok(NoMoreQuestions);
    }
  }

  /** Asking a candidate and adding its id to `previous_questions` leaves
      strictly fewer candidates, so a quiz that keeps sending back the ids it
      was asked reaches "No more questions." after at most as many rounds
      as there are questions. */
  lemma QuizProgress(questions: seq<Question>, previous: seq<int>, categoryId: Option<int>, asked: Question)
    requires asked in QuizCandidates(questions, previous, categoryId)
    ensures |QuizCandidates(questions, previous + [asked.id], categoryId)| < |QuizCandidates(questions, previous, categoryId)|
  {
    var i :| 0 <= i < |questions| && questions[i] == asked;
    if categoryId != Some(0) {
      FilterShrinks(questions,
        (q: Question) => Some(q.category) == categoryId && q.id !in previous,
        (q: Question) => Some(q.category) == categoryId && q.id !in previous + [asked.id], i);
    } else {
      FilterShrinks(questions,
        (q: Question) => q.id !in previous,
        (q: Question) => q.id !in previous + [asked.id], i);
    }
  }
}
