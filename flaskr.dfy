/**
 * The six route handlers of the trivia API over an in-memory store. Every handler catches its own
 * failures and answers with exactly one of the coarse outcomes of `Response`.
 */
module Flaskr {
  import opened Wrappers
  import opened Records
  import Seqs
  import Text

  /** Page size of the question listing. */
  const QuestionsPerPage := 10

  /** The `quiz_category.type` a client sends to mean "every category". */
  const AllCategories := "click"

  /** A handler's answer: its JSON payload (status 200), or status 404, 422 or 500. */
  datatype Response<T> = Ok(payload: T) | NotFound | Unprocessable | Internal

  /** Body of `GET /questions`. */
  datatype QuestionPage = QuestionPage(
    questions: seq<Question>,
    totalQuestions: nat,
    categories: map<int, string>,
    currentCategory: Option<string>)

  /** Body of `GET /categories/<id>/questions` and of a search. */
  datatype QuestionList = QuestionList(questions: seq<Question>, totalQuestions: nat, currentCategory: Option<string>)

  /** JSON body of `POST /questions`; an absent key is `None`. */
  datatype PostBody = PostBody(
    searchTerm: Option<string>,
    question: Option<string>,
    answer: Option<string>,
    category: Option<int>,
    difficulty: Option<int>)

  /** Success body of `POST /questions`: `{success: true}` after a create, the matches after a search. */
  datatype PostResult = Created | Found(results: QuestionList)

  /** JSON body of `POST /quizzes`; an absent key is `None`. */
  datatype QuizCategory = QuizCategory(id: Option<int>, kind: Option<string>)
  datatype QuizBody = QuizBody(previousQuestions: Option<seq<int>>, quizCategory: Option<QuizCategory>)

  /** A quiz body whose keys were all read: the ids already asked, and the category to draw from (none: all). */
  datatype QuizRequest = QuizRequest(previous: seq<int>, scope: Option<int>)

  // ---------------------------------------------------------------- pagination

  /** Index of the first row of page `page`; negative exactly for the pages before the first. */
  function PageStart(page: int): (r: int)
    ensures r < 0 <==> page < 1
    ensures r == 0 <==> page == 1
  {
    (page - 1) * QuestionsPerPage
  }

  /** End of the page: `start + per_page`, cut back to the number of rows. */
  function PageEnd(page: int, total: int): (r: int)
    ensures r == total || r == PageStart(page) + QuestionsPerPage
    ensures r <= total && r <= PageStart(page) + QuestionsPerPage
    ensures 0 <= PageStart(page) <= total ==> PageStart(page) <= r
  {
    if PageStart(page) + QuestionsPerPage > total then total else PageStart(page) + QuestionsPerPage
  }

  /** The rows of page `page` of the ordered table. */
  function Page(ordered: seq<Question>, page: int): (r: seq<Question>)
    requires 0 <= PageStart(page) <= |ordered|
    ensures |r| == PageEnd(page, |ordered|) - PageStart(page) <= QuestionsPerPage
    ensures forall k | 0 <= k < |r| :: r[k] == ordered[PageStart(page) + k]
  {
    ordered[PageStart(page)..PageEnd(page, |ordered|)]
  }

  /** A page holds at most ten rows, exactly ten unless it is the last, and it is empty only past the end. */
  lemma PageSize(ordered: seq<Question>, page: int)
    requires 0 <= PageStart(page) <= |ordered|
    ensures |Page(ordered, page)| <= QuestionsPerPage
    ensures PageStart(page) + QuestionsPerPage <= |ordered| ==> |Page(ordered, page)| == QuestionsPerPage
    ensures PageStart(page) + QuestionsPerPage > |ordered| ==> |Page(ordered, page)| == |ordered| - PageStart(page)
    ensures Page(ordered, page) == [] <==> PageStart(page) == |ordered|
  {
  }

  /** Pages of a strictly ascending table come in id order: every id on an earlier page is below every id on a later one. */
  lemma PagesInIdOrder(ordered: seq<Question>, p1: int, p2: int)
    requires StrictlyAscending(ordered)
    requires 0 <= PageStart(p1) && p1 < p2 && PageStart(p2) <= |ordered|
    ensures forall x, y | x in Page(ordered, p1) && y in Page(ordered, p2) :: x.id < y.id
  {
  }

  /** Each page of a strictly ascending table lists its rows in ascending id order. */
  lemma PageAscending(ordered: seq<Question>, page: int)
    requires StrictlyAscending(ordered)
    requires 0 <= PageStart(page) <= |ordered|
    ensures StrictlyAscending(Page(ordered, page))
  {
  }

  /** Every row of the table is listed on some page that the listing accepts. */
  lemma EveryRowOnSomePage(ordered: seq<Question>, q: Question)
    requires q in ordered
    ensures exists page :: 0 <= PageStart(page) <= |ordered| && q in Page(ordered, page)
  {
    var k :| 0 <= k < |ordered| && ordered[k] == q;
    var page := k / QuestionsPerPage + 1;
    assert PageStart(page) <= k < PageEnd(page, |ordered|);
    assert Page(ordered, page)[k - PageStart(page)] == q;
  }

  /** The loop that copies the rows of the requested page into the answer, one row at a time. */
  method FormatPage(ordered: seq<Question>, page: int) returns (listed: seq<Question>)
    requires 0 <= PageStart(page) <= |ordered|
    ensures listed == Page(ordered, page)
  {
    var start := PageStart(page);
    var end := start + QuestionsPerPage;
    var last := if end > |ordered| then |ordered| else end;
    listed := [];
    var i := start;
    while i < last
      invariant start <= i <= last
      invariant listed == ordered[start..i]
    {
      listed := listed + [ordered[i]];
      i := i + 1;
    }
  }

  /** Every page the listing serves is in strictly ascending id order. */
  lemma ListedPageAscending(qs: seq<Question>, page: int)
    requires UniqueIds(qs)
    requires 0 <= PageStart(page) <= |qs|
    ensures StrictlyAscending(Page(SortById(qs), page))
  {
    SortByIdStrict(qs);
    PageAscending(SortById(qs), page);
  }

  /** Pages the listing serves never overlap: a later page holds only larger ids than an earlier one. */
  lemma ListedPagesInIdOrder(qs: seq<Question>, p1: int, p2: int)
    requires UniqueIds(qs)
    requires 0 <= PageStart(p1) && p1 < p2 && PageStart(p2) <= |qs|
    ensures forall x, y | x in Page(SortById(qs), p1) && y in Page(SortById(qs), p2) :: x.id < y.id
  {
    SortByIdStrict(qs);
    PagesInIdOrder(SortById(qs), p1, p2);
  }

  /** Every question of the table is served on some page of the listing. */
  lemma EveryQuestionListed(qs: seq<Question>, q: Question)
    requires q in qs
    ensures exists page :: 0 <= PageStart(page) <= |qs| && q in Page(SortById(qs), page)
  {
    assert q in multiset(SortById(qs));
    EveryRowOnSomePage(SortById(qs), q);
  }

  // ---------------------------------------------------------------- search

  /** The search branch of `POST /questions`: rows whose question text contains the term, ignoring case. */
  function Search(qs: seq<Question>, term: string): (r: QuestionList)
    ensures forall q :: q in r.questions <==> q in qs && Text.IsSubstring(Text.Lower(term), Text.Lower(q.question))
    ensures r.totalQuestions == |qs| && r.currentCategory == None
  {
    QuestionList(Seqs.Filter(qs, (q: Question) => Text.ContainsIgnoringCase(q.question, term)), |qs|, None)
  }

  // ---------------------------------------------------------------- quiz

  /** Reads `previous_questions`, `quiz_category` and its `type` in turn, and `id` only off the "click" branch. */
  function ParseQuiz(body: Option<QuizBody>): (r: Option<QuizRequest>)
    ensures r.Some? <==>
      && body.Some? && body.value.previousQuestions.Some? && body.value.quizCategory.Some?
      && body.value.quizCategory.value.kind.Some?
      && (body.value.quizCategory.value.kind.value != AllCategories ==> body.value.quizCategory.value.id.Some?)
    ensures r.Some? ==> r.value.previous == body.value.previousQuestions.value
    ensures r.Some? ==> (r.value.scope.None? <==> body.value.quizCategory.value.kind.value == AllCategories)
    ensures r.Some? && r.value.scope.Some? ==> r.value.scope == body.value.quizCategory.value.id
  {
    match body
    case None => None
    case Some(QuizBody(previous, category)) =>
      if previous.None? || category.None? || category.value.kind.None? then None
      else if category.value.kind.value == AllCategories then Some(QuizRequest(previous.value, None))
      else if category.value.id.None? then None
      else Some(QuizRequest(previous.value, category.value.id))
  }

  /** A question the quiz may still ask: not asked before, and in the chosen category unless all are in play. */
  predicate Eligible(q: Question, req: QuizRequest)
  {
    q.id !in req.previous && (req.scope.Some? ==> q.category == req.scope.value)
  }

  /** The quiz's candidate list: the rows of the category (or all rows), then without the ids already asked. */
  function Candidates(qs: seq<Question>, req: QuizRequest): (r: seq<Question>)
    ensures forall q :: q in r <==> q in qs && Eligible(q, req)
  {
    var pool := if req.scope.None? then qs else InCategory(qs, req.scope.value);
    Seqs.Filter(pool, (q: Question) => q.id !in req.previous)
  }

  /** `candidates[randint(0, n - 1)]`, the random index supplied as `draw` and reduced into range. */
  function Pick(candidates: seq<Question>, draw: nat): (r: Option<Question>)
    ensures r.None? <==> candidates == []
    ensures r.Some? ==> r.value in candidates
  {
    if |candidates| > 0 then Some(candidates[draw % |candidates|]) else None
  }

  /**
   * The `quizzes` handler: Internal when a key is missing; otherwise no question exactly when no row is
   * eligible, and else an eligible row of the table.
   */
  function Quizzes(qs: seq<Question>, body: Option<QuizBody>, draw: nat): (r: Response<Option<Question>>)
    ensures r.Ok? || r == Internal
    ensures r == Internal <==> ParseQuiz(body).None?
    ensures r.Ok? ==> (r.payload.None? <==> forall q | q in qs :: !Eligible(q, ParseQuiz(body).value))
    ensures r.Ok? && r.payload.Some? ==> r.payload.value in qs && Eligible(r.payload.value, ParseQuiz(body).value)
  {
    match ParseQuiz(body)
    case None => Internal
    case Some(req) =>
      Ok(Pick(Candidates(qs, req), draw))
  }

  /** Whatever the random draw, every eligible row can be the one asked. */
  lemma EveryCandidateCanBeDrawn(qs: seq<Question>, body: Option<QuizBody>, q: Question)
    requires ParseQuiz(body).Some? && q in qs && Eligible(q, ParseQuiz(body).value)
    ensures exists draw: nat :: Quizzes(qs, body, draw) == Ok(Some(q))
  {
    var candidates := Candidates(qs, ParseQuiz(body).value);
    var k :| 0 <= k < |candidates| && candidates[k] == q;
    assert k % |candidates| == k;
    assert Quizzes(qs, body, k) == Ok(Some(q));
  }

  /** With "click" the category id is never read: bodies that differ only in it get the same answer. */
  lemma ClickIgnoresCategoryId(qs: seq<Question>, previous: seq<int>, id1: Option<int>, id2: Option<int>, draw: nat)
    ensures
      var body1 := Some(QuizBody(Some(previous), Some(QuizCategory(id1, Some(AllCategories)))));
      var body2 := Some(QuizBody(Some(previous), Some(QuizCategory(id2, Some(AllCategories)))));
      Quizzes(qs, body1, draw) == Quizzes(qs, body2, draw) != Internal
  {
  }

  /** Once every id has been asked, a quiz over all categories ends with no question. */
  lemma QuizOverWhenAllAsked(qs: seq<Question>, previous: seq<int>, id: Option<int>, draw: nat)
    requires forall q | q in qs :: q.id in previous
    ensures Quizzes(qs, Some(QuizBody(Some(previous), Some(QuizCategory(id, Some(AllCategories))))), draw) == Ok(None)
  {
  }

  // ---------------------------------------------------------------- the store and its handlers

  /** The two tables, and the id sequence the database draws new question keys from. */
  class Store {
    var questions: seq<Question>
    var categories: seq<Category>
    var nextId: int

    /** Primary keys are unique, and the sequence is ahead of every key in use. */
    ghost predicate Valid()
      reads this
    {
      && UniqueIds(questions)
      && UniqueCategoryIds(categories)
      && forall q | q in questions :: q.id < nextId
    }

    constructor (qs: seq<Question>, cs: seq<Category>)
      requires UniqueIds(qs) && UniqueCategoryIds(cs)
      ensures Valid() && questions == qs && categories == cs
    {
      questions, categories := qs, cs;
      nextId := NextFreeId(qs);
    }

    /** `GET /categories`: the id-to-type dictionary of every category. */
    method GetCategories() returns (r: Response<map<int, string>>)
      ensures r == Ok(CategoryMap(categories))
    {
      var m := BuildCategoryMap(categories);
      return Ok(m);
    }

    /**
     * `GET /questions?page=N`: page N of the id-ordered table with the unpaginated total and the category
     * dictionary. A missing or non-integer page and a page out of range both answer NotFound: the range
     * check's `abort(422)` is raised inside the handler's `try` and turned into 404 by its bare `except`.
     */
    method GetQuestions(page: Option<int>) returns (r: Response<QuestionPage>)
      ensures r.Ok? || r == NotFound
      ensures r.Ok? <==> page.Some? && 0 <= PageStart(page.value) <= |questions|
      ensures r.Ok? ==>
        && r.payload.questions == Page(SortById(questions), page.value)
        && r.payload.totalQuestions == |questions|
        && r.payload.categories == CategoryMap(categories)
        && r.payload.currentCategory == None
    {
      if page.None? {
        return NotFound;
      }
      var ordered := SortById(questions);
      var start := PageStart(page.value);
      var total := |ordered|;
      if start > total || start < 0 {
        return NotFound;
      }
      var listed := FormatPage(ordered, page.value);
      var m := BuildCategoryMap(categories);
      return Ok(QuestionPage(listed, total, m, None));
    }

    /**
     * `DELETE /questions/<id>`: removes the row and echoes the id; a missing row makes the
     * handler call `delete` on nothing, which answers Unprocessable with the store untouched.
     */
    method DeleteQuestion(questionId: nat) returns (r: Response<int>)
      requires Valid()
      modifies this
      ensures Valid()
      ensures categories == old(categories) && nextId == old(nextId)
      ensures (exists q | q in old(questions) :: q.id == questionId) ==>
        r == Ok(questionId) && questions == RemoveById(old(questions), questionId)
      ensures (forall q | q in old(questions) :: q.id != questionId) ==>
        r == Unprocessable && questions == old(questions)
    {
      var found := FindQuestion(questions, questionId);
      if found.None? {
        return Unprocessable;
      }
      FilterKeepsUniqueIds(questions, (q: Question) => q.id != questionId);
      questions := RemoveById(questions, questionId);
      return Ok(questionId);
    }

    /**
     * `GET /categories/<id>/questions`: the rows filed under the category, the global row count, and the
     * category's type; Internal when no category has that id, whatever the rows carry.
     */
    method GetQuestionsByCategory(categoryId: nat) returns (r: Response<QuestionList>)
      ensures r.Ok? || r == Internal
      ensures r.Ok? <==> exists c | c in categories :: c.id == categoryId
      ensures r.Ok? ==>
        && r.payload.questions == InCategory(questions, categoryId)
        && r.payload.totalQuestions == |questions|
        && r.payload.currentCategory == Some(FindCategory(categories, categoryId).value.kind)
    {
      var listed: seq<Question> := [];
      var i := 0;
      while i < |questions|
        invariant 0 <= i <= |questions|
        invariant listed == InCategory(questions[..i], categoryId)
      {
        assert questions[..i + 1] == questions[..i] + [questions[i]];
        Seqs.FilterSnoc(questions[..i], questions[i], (q: Question) => q.category == categoryId);
        if questions[i].category == categoryId {
          listed := listed + [questions[i]];
        }
        i := i + 1;
      }
      assert questions[..i] == questions;
      var category := FindCategory(categories, categoryId);
      if category.None? {
        return Internal;
      }
      return Ok(QuestionList(listed, |questions|, Some(category.value.kind)));
    }

    /** `new_question.insert()`: adds one row under the next key of the id sequence. */
    method Insert(question: string, answer: string, category: int, difficulty: int) returns (id: int)
      requires Valid()
      modifies this
      ensures Valid()
      ensures id == old(nextId) && nextId == old(nextId) + 1
      ensures forall q | q in old(questions) :: q.id != id
      ensures questions == old(questions) + [Question(id, question, answer, category, difficulty)]
      ensures categories == old(categories)
    {
      id := nextId;
      AppendFreshKeepsUniqueIds(questions, Question(id, question, answer, category, difficulty));
      questions := questions + [Question(id, question, answer, category, difficulty)];
      nextId := nextId + 1;
    }

    /**
     * `POST /questions`: a body with `searchTerm` searches and changes nothing; one without it creates a
     * question from its four fields. A missing body or a missing field answers Internal with nothing inserted.
     */
    method AddNewQuestionOrSearch(body: Option<PostBody>) returns (r: Response<PostResult>)
      requires Valid()
      modifies this
      ensures Valid()
      ensures categories == old(categories)
      ensures r.Ok? || r == Internal
      ensures r == Internal <==>
        body.None? || (body.value.searchTerm.None? && (body.value.question.None? || body.value.answer.None?
                                                      || body.value.category.None? || body.value.difficulty.None?))
      ensures r == Ok(Created) <==>
        body.Some? && body.value.searchTerm.None? && body.value.question.Some? && body.value.answer.Some?
        && body.value.category.Some? && body.value.difficulty.Some?
      ensures r == Ok(Created) ==>
        && questions == old(questions) + [Question(old(nextId), body.value.question.value, body.value.answer.value,
                                                   body.value.category.value, body.value.difficulty.value)]
        && nextId == old(nextId) + 1
      ensures r != Ok(Created) ==> questions == old(questions) && nextId == old(nextId)
      ensures body.Some? && body.value.searchTerm.Some? ==>
        r == Ok(Found(Search(old(questions), body.value.searchTerm.value)))
    {
      if body.None? {
        return Internal;
      }
      var data := body.value;
      if data.searchTerm.None? {
        if data.question.None? || data.answer.None? || data.category.None? || data.difficulty.None? {
          return Internal;
        }
        var _ := Insert(data.question.value, data.answer.value, data.category.value, data.difficulty.value);
        return Ok(Created);
      }
      return Ok(Found(Search(questions, data.searchTerm.value)));
    }
  }
}
