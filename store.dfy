/**
 * The question table and the two endpoints that change it: deleting a
 * question by id and creating one from a request body. The storage layer
 * assigns ids from a serial counter, so an id is never handed out twice.
 */
module Store {
  import opened Models

  /** The position of the question with the given id, if there is one:
      the lookup `filter_by(id=...).one_or_none()` on the primary key. */
  function FindId(qs: seq<Question>, id: int): (r: Option<nat>)
    ensures r.None? <==> !HasId(qs, id)
    ensures r.Some? ==> r.value < |qs| && qs[r.value].id == id
  {
    if qs == [] then None
    else if qs[0].id == id then Some(0)
    else
      match FindId(qs[1..], id)
      case None => None
      case Some(k) => Some(k + 1)
  }

  /** The JSON body of `POST /questions`; each field may be null. */
  datatype NewQuestion = NewQuestion(
    question: Option<string>,
    answer: Option<string>,
    category: Option<int>,
    difficulty: Option<int>)

  /** Some field of the body is null. */
  predicate HasNullField(body: NewQuestion) {
    body.question.None? || body.answer.None? || body.category.None? || body.difficulty.None?
  }

  class QuestionStore {
    /** The question rows, in the order a query returns them. */
    var questions: seq<Question>
    /** The category rows; no endpoint changes them. */
    var categories: seq<Category>
    /** The next value of the id sequence. */
    var nextId: int

    /** Ids are positive, unique, and below the next value of the sequence. */
    ghost predicate Valid()
      reads this
    {
      && nextId >= 1
      && UniqueIds(questions)
      && forall i :: 0 <= i < |questions| ==> 1 <= questions[i].id < nextId
    }

    /** A store holding the given rows, its sequence at `nextId`. */
    constructor (questions: seq<Question>, categories: seq<Category>, nextId: int)
      requires nextId >= 1 && UniqueIds(questions)
      requires forall i :: 0 <= i < |questions| ==> 1 <= questions[i].id < nextId
      ensures Valid()
      ensures this.questions == questions && this.categories == categories && this.nextId == nextId
    {
      this.questions := questions;
      this.categories := categories;
      this.nextId := nextId;
    }

    /** `DELETE /questions/<id>`: 404 and no change when no question has
        that id; otherwise that one row is removed, the others stay in
        order, and the id is reported back. */
    method DeleteQuestion(questionId: int) returns (r: Response<Deletion>)
      requires Valid()
      modifies this
      ensures Valid()
      ensures categories == old(categories) && nextId == old(nextId)
      ensures r.Ok? <==> HasId(old(questions), questionId)
      ensures r.Fail? ==> r.error == NotFound && questions == old(questions)
      ensures r.Ok? ==> r.body.deleted == questionId && !HasId(questions, questionId)
      ensures r.Ok? ==> exists i :: 0 <= i < |old(questions)| && old(questions)[i].id == questionId
                                   && questions == old(questions)[..i] + old(questions)[i + 1..]
      ensures forall q :: q in questions <==> q in old(questions) && q.id != questionId
    {
      match FindId(questions, questionId)
      case None =>
        r := Fail(NotFound);
      case Some(i) =>
        ghost var before := questions;
        questions := questions[..i] + questions[i + 1..];
        RemovedRow(before, i);
        r := Ok(Deletion(questionId, "The question was successfully deleted."));
    }

    /** `POST /questions`: 422 and no change when a field is null;
        otherwise one row is appended, with a fresh id and the four fields
        of the body. */
    method CreateQuestion(body: NewQuestion) returns (r: Response<Creation>)
      requires Valid()
      modifies this
      ensures Valid()
      ensures categories == old(categories)
      ensures r.Fail? <==> HasNullField(body)
      ensures r.Fail? ==> r.error == Unprocessable && questions == old(questions) && nextId == old(nextId)
      ensures r.Ok? ==>
        && r.body.question.question == body.question.value
        && r.body.question.answer == body.answer.value
        && r.body.question.category == body.category.value
        && r.body.question.difficulty == body.difficulty.value
      ensures r.Ok? ==> !HasId(old(questions), r.body.question.id)
      ensures r.Ok? ==> questions == old(questions) + [r.body.question] && nextId == old(nextId) + 1
    {
      if body.question.None? || body.answer.None? {
        return Fail(Unprocessable);
      }
      if body.category.None? || body.difficulty.None? {
        return Fail(Unprocessable);
      }
      var q := Question(nextId, body.question.value, body.answer.value, body.category.value, body.difficulty.value);
      questions := questions + [q];
      nextId := nextId + 1;
      r := Ok(Creation(q, "The question was successfully created"));
    }
  }

  /** Removing the row at `i` from rows with unique ids keeps the ids unique
      and loses exactly the rows with that row's id. */
  lemma RemovedRow(qs: seq<Question>, i: nat)
    requires UniqueIds(qs) && i < |qs|
    ensures var rest := qs[..i] + qs[i + 1..];
      && UniqueIds(rest)
      && !HasId(rest, qs[i].id)
      && forall q :: q in rest <==> q in qs && q.id != qs[i].id
  {
    var rest := qs[..i] + qs[i + 1..];
    assert forall k :: 0 <= k < |rest| ==> rest[k] == if k < i then qs[k] else qs[k + 1];
  }

  /** Creating a question and then deleting it by the id it was given
      leaves the question table as it was: deletion undoes creation. The
      delete is sent only when the create succeeded. */
  method CreateThenDelete(store: QuestionStore, body: NewQuestion)
    returns (created: Response<Creation>, deleted: Option<Response<Deletion>>)
    requires store.Valid()
    modifies store
    ensures store.Valid()
    ensures created.Ok? <==> !HasNullField(body)
    ensures deleted.Some? <==> created.Ok?
    ensures deleted.Some? ==> deleted.value.Ok? && deleted.value.body.deleted == created.body.question.id
    ensures store.questions == old(store.questions)
  {
    created := store.CreateQuestion(body);
    if created.Fail? {
      return created, None;
    }
    ghost var before := old(store.questions);
    var q := created.body.question;
    assert store.questions[|before|] == q;
    var r := store.DeleteQuestion(q.id);
    deleted := Some(r);
    ghost var i :| 0 <= i < |before| + 1 && (before + [q])[i].id == q.id
                   && store.questions == (before + [q])[..i] + (before + [q])[i + 1..];
    if i < |before| {
      assert false;
    }
    assert (before + [q])[..i] == before;
  }
}
