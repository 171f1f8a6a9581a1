/**
 * The two persisted entities of the trivia backend, the error codes its
 * handlers abort with, and the response bodies they send back.
 */
module Models {

  datatype Option<+T> = None | Some(value: T)

  /** A trivia question. The storage layer assigns `id`; the other four
      fields are what a client supplies when it creates one. */
  datatype Question = Question(
    id: int,
    question: string,
    answer: string,
    category: int,
    difficulty: int)

  /** A question category; the column the backend calls `type` is `kind`
      here, because `type` is a keyword in Dafny. */
  datatype Category = Category(id: int, kind: string)

  /** The errors the application registers handlers for. */
  datatype ApiError = BadRequest | NotFound | Unprocessable | ServerError
  {
    /** The HTTP status and the `error` field of the error envelope: a
        client-error status for what the request got wrong, a server-error
        status otherwise. */
    function Code(): (c: int)
      ensures 400 <= c < 500 <==> !ServerError?
      ensures 500 <= c < 600 <==> ServerError?
    {
      match this
      case BadRequest => 400
      case NotFound => 404
      case Unprocessable => 422
      case ServerError => 500
    }

    /** The `message` field of the error envelope, fixed by the status. */
    function Message(): (m: string)
      ensures Code() == 400 ==> m == "Bad Request"
      ensures Code() == 404 ==> m == "Not found"
      ensures Code() == 422 ==> m == "Unprocessable Entity"
      ensures Code() == 500 ==> m == "Internal Server Error"
    {
      match this
      case BadRequest => "Bad Request"
      case NotFound => "Not found"
      case Unprocessable => "Unprocessable Entity"
      case ServerError => "Internal Server Error"
    }
  }

  /** Either the success body of an endpoint or the error it aborted with. */
  datatype Response<+T> = Ok(body: T) | Fail(error: ApiError)

  /** Body of `GET /questions`. */
  datatype QuestionPage = QuestionPage(
    questions: seq<Question>,
    totalQuestions: nat,
    currentCategory: Option<int>,
    categories: seq<Category>)

  /** Body of `POST /questions/searches` and `GET /categories/<id>/questions`. */
  datatype QuestionList = QuestionList(
    questions: seq<Question>,
    totalQuestions: nat,
    currentCategory: Option<int>)

  /** Body of `DELETE /questions/<id>`. */
  datatype Deletion = Deletion(deleted: int, message: string)

  /** Body of `POST /questions`. */
  datatype Creation = Creation(question: Question, message: string)

  /** Body of `POST /quizzes`: a question, or the notice that none is left. */
  datatype QuizOutcome = Next(question: Question) | NoMoreQuestions
  {
    /** The `message` field of a quiz answer; it tells the two outcomes apart. */
    function Message(): (m: string)
      ensures m == "No more questions." <==> NoMoreQuestions?
      ensures m == "success" <==> Next?
    {
      match this
      case Next(_) => "success"
      case NoMoreQuestions => "No more questions."
    }
  }

  /** Different errors carry different status codes, so a client can tell
      them apart by status alone. */
  lemma {:induction false} CodesIdentifyErrors(e1: ApiError, e2: ApiError)
    ensures e1.Code() == e2.Code() <==> e1 == e2
  {
    match e1
    case BadRequest =>
    case NotFound =>
    case Unprocessable =>
    case ServerError =>
  }

  /** True when some question in `qs` has the given id. */
  predicate HasId(qs: seq<Question>, id: int) {
    exists i :: 0 <= i < |qs| && qs[i].id == id
  }

  /** No two questions in `qs` share an id (the id is the primary key). */
  predicate UniqueIds(qs: seq<Question>) {
    forall i, j :: 0 <= i < j < |qs| ==> qs[i].id != qs[j].id
  }
}
