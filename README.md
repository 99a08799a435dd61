# Trivia API: a verified model of its route handlers

The trivia service is a small web API over two tables, questions and categories. It lists categories,
lists questions ten to a page in id order, deletes a question, lists the questions of one category,
creates or searches questions through one combined endpoint, and picks the next quiz question among
those not yet asked. Every handler catches its own failures and answers with one coarse status
(404, 422 or 500).

This project models those six handlers of `backend/flaskr/__init__.py` over an in-memory store and
proves what each one returns and how it changes the store.

- `wrappers.dfy` (`Wrappers`): the `Option` type. It is used for lookups and for absent JSON keys.
- `seqs.dfy` (`Seqs`): an order-preserving `Filter`, the shape of every query filter.
- `text.dfy` (`Text`): ASCII lower-casing and substring search, as used by the question search.
- `records.dfy` (`Records`): the `Question` and `Category` rows and the queries run on them: lookup by key,
  filter by category, delete by key, order by id (an insertion sort proved to be an ascending permutation),
  and the id-to-type category dictionary built by a loop.
- `flaskr.dfy` (`Flaskr`): the `Response` outcome type (`Ok | NotFound | Unprocessable | Internal`), the
  payloads and request bodies, pagination, search, quiz selection, and the `Store` class. `Store` holds the
  two tables and the question id sequence. Its methods are the handlers that read or change the tables.

The category column `type` is a Dafny keyword, so it is called `kind` here. Three handlers fill lists and
dictionaries in loops, and those loops are methods with loop invariants: `BuildCategoryMap`,
`FormatPage` and `GetQuestionsByCategory`. In `GetQuestionsByCategory` the loop itself applies the
category test that the database applies in `filter_by`, and copies each match into the answer. Delete and create change the store, so they are `Store`
methods with `modifies this`. Search and quiz selection are list comprehensions in the source, so they
are functions over the question rows.

Two behaviours of the code are easy to misread, and the model follows the code in both:

- A page out of range answers NotFound, not Unprocessable. In the code, the
  `abort(422)` is raised inside the handler's `try` and its bare `except` turns it into 404
  (`backend/flaskr/__init__.py:55-56`, `74-75`). The test at `backend/test_flaskr.py:40-42` expects 404.
- A category id that is a valid path id but names no category answers Internal (500) in
  `GET /categories/<id>/questions`. The test at `backend/test_flaskr.py:93-96` asks for id `-1`. The route's
  `int` converter (`backend/flaskr/__init__.py:87`) accepts only non-negative digits, so that request never
  reaches the handler and routing answers 404. The same holds for `DELETE /questions/-1`
  (`backend/test_flaskr.py:50-52`, route at `backend/flaskr/__init__.py:77`). The model types both path ids
  as `nat` for this reason.

## Model

| member | source | states |
|---|---|---|
| `Seqs.Filter` | backend/flaskr/__init__.py:96 | the selection keeps exactly the elements that satisfy the predicate and is never longer than the input |
| `Records.FindQuestion` | backend/flaskr/__init__.py:80 | `query.get`: a found row is in the table and carries the key; nothing is found exactly when no row has the key |
| `Records.FindQuestionUnique` | backend/flaskr/__init__.py:80 | under unique keys the lookup returns the one row with that key |
| `Records.FindCategory` | backend/flaskr/__init__.py:97 | a found category is in the table and carries the id; nothing is found exactly when no category has the id |
| `Records.FindCategoryUnique` | backend/flaskr/__init__.py:97 | under unique category ids the lookup returns the category with that id |
| `Records.InCategory` | backend/flaskr/__init__.py:96 | `filter_by(category=id)` holds exactly the rows whose category equals the id (in table order, by `Seqs.FilterSnoc`) |
| `Records.InCategorySnoc` | backend/flaskr/__init__.py:96-100 | a newly inserted question is listed, last, under its own category (create, then list by category) |
| `Records.RemoveById` | backend/flaskr/__init__.py:80-81 | the table after `question.delete()` holds exactly the rows with another key; `RemoveByIdRemovesOne` and `RemoveByIdShrinksByOne` say that exactly one row goes |
| `Records.RemoveByIdRemovesOne` | backend/flaskr/__init__.py:80-81 | deleting a present key removes that one row and no other (as multisets) |
| `Records.RemoveByIdShrinksByOne` | backend/flaskr/__init__.py:80-81 | deleting a present key shrinks the table by exactly one row |
| `Records.DeletedKeyGone` | backend/flaskr/__init__.py:80-81 | after a delete the key is no longer found and every row with another key remains |
| `Records.FilterKeepsUniqueIds` | backend/flaskr/__init__.py:81 | deleting rows never produces a duplicate key |
| `Records.AppendFreshKeepsUniqueIds` | backend/flaskr/__init__.py:115 | inserting a row under an unused key keeps keys unique |
| `Records.InsertById` | backend/flaskr/__init__.py:50 | inserting a row into an ascending table gives an ascending table holding one more copy of the row |
| `Records.SortById` | backend/flaskr/__init__.py:50 | `order_by(Question.id.asc())` yields an ascending-by-id permutation of the rows |
| `Records.InsertByIdStrict` | backend/flaskr/__init__.py:50 | inserting a row with an unused id into a strictly ascending table keeps it strictly ascending |
| `Records.SortByIdStrict` | backend/flaskr/__init__.py:50 | with unique keys the id order is strict |
| `Records.CategoryMap` | backend/flaskr/__init__.py:29-33 | the dictionary's keys are exactly the category ids |
| `Records.CategoryMapValues` | backend/flaskr/__init__.py:31-33 | under unique ids every category id maps to that category's type |
| `Records.BuildCategoryMap` | backend/flaskr/__init__.py:30-33 | the loop fills the dictionary so that it equals `CategoryMap` of the category rows |
| `Records.NextFreeId` | backend/flaskr/__init__.py:114-115 | the id sequence starts above every key already in the table |
| `Text.Lower` | backend/flaskr/__init__.py:119 | lower-casing keeps the length and lower-cases each character in place |
| `Text.SubstringOfTail` | backend/flaskr/__init__.py:119 | an occurrence not at the front of a text is an occurrence in its tail, and back |
| `Text.Contains` | backend/flaskr/__init__.py:119 | the scan answers true exactly when the term occurs somewhere in the text |
| `Text.ContainsIgnoringCase` | backend/flaskr/__init__.py:119 | `ilike '%term%'` holds exactly when the lower-cased term occurs in the lower-cased text |
| `Flaskr.PageStart` | backend/flaskr/__init__.py:52-56 | the first index of page `p`, negative exactly when `p <= 0` (the `start < 0` check) and zero exactly for page 1 |
| `Flaskr.PageEnd` | backend/flaskr/__init__.py:53-60 | the slice end is `start + 10` or the total, whichever is smaller, and never before the start of an accepted page |
| `Flaskr.Page` | backend/flaskr/__init__.py:52-60 | the page holds `end - start` rows, at most ten, and its k-th row is row `start + k` of the ordered table; `PageSize` gives the exact sizes |
| `Flaskr.PageSize` | backend/flaskr/__init__.py:52-60 | a page has at most ten rows, exactly ten unless it is the last, and is empty only when it starts at the total |
| `Flaskr.PagesInIdOrder` | backend/flaskr/__init__.py:50-60 | on a strictly ascending table every id of an earlier page is below every id of a later page |
| `Flaskr.PageAscending` | backend/flaskr/__init__.py:50-60 | each page of a strictly ascending table is strictly ascending |
| `Flaskr.EveryRowOnSomePage` | backend/flaskr/__init__.py:52-60 | every row of the table appears on some page the listing accepts |
| `Flaskr.ListedPageAscending` | backend/flaskr/__init__.py:50-63 | every page the listing serves is in strictly ascending id order |
| `Flaskr.ListedPagesInIdOrder` | backend/flaskr/__init__.py:50-63 | pages the listing serves never overlap: every id on a later page exceeds every id on an earlier one |
| `Flaskr.EveryQuestionListed` | backend/flaskr/__init__.py:50-63 | every question of the table is served on some page the listing accepts |
| `Flaskr.FormatPage` | backend/flaskr/__init__.py:57-63 | the loop copies exactly the slice `[(p-1)*10, min((p-1)*10+10, total))` of the ordered rows |
| `Flaskr.Store.GetCategories` | backend/flaskr/__init__.py:26-36 | always answers Ok with the id-to-type dictionary of all categories |
| `Flaskr.Store.GetQuestions` | backend/flaskr/__init__.py:38-75 | answers Ok exactly when the page is an integer with `0 <= (p-1)*10 <= total`, and NotFound otherwise (never 422); when Ok, the page of the id-ordered rows, the unpaginated total, the category dictionary and a null current category |
| `Flaskr.Store.DeleteQuestion` | backend/flaskr/__init__.py:77-84 | a present id: the row is removed, all others and all categories stay, and the id is echoed; an absent id: Unprocessable and the store is unchanged |
| `Flaskr.Store.GetQuestionsByCategory` | backend/flaskr/__init__.py:87-107 | Ok exactly when the category exists; then the rows of that category in table order, the global row count and the category's type; otherwise Internal |
| `Flaskr.Store.Insert` | backend/flaskr/__init__.py:114-115 | one row with the given fields is appended under a key no existing row uses, and the id sequence advances |
| `Flaskr.Search` | backend/flaskr/__init__.py:117-126 | the matches are exactly the rows whose question text contains the term ignoring case; the total is the global count and the current category is null |
| `Flaskr.Store.AddNewQuestionOrSearch` | backend/flaskr/__init__.py:109-128 | creates exactly when there is a body without `searchTerm` whose four fields are all present, appending one row under the next id; a search answers `Search` of the table and changes nothing; it answers Internal exactly when the body is missing, or has no `searchTerm` and lacks one of the four fields, and then nothing is inserted |
| `Flaskr.ParseQuiz` | backend/flaskr/__init__.py:134-137 | the body is accepted exactly when `previous_questions`, `quiz_category` and its `type` are present and, unless the type is "click", its `id` too; "click" means no category restriction |
| `Flaskr.Eligible` | backend/flaskr/__init__.py:137-139 | the independent reading of who may be asked: a row not yet asked and, unless the type is "click", in the chosen category; `Flaskr.Candidates` is proved to select exactly these |
| `Flaskr.Candidates` | backend/flaskr/__init__.py:137-139 | the two-stage comprehension (category pool, then ids not yet asked) holds exactly the eligible rows of the table |
| `Flaskr.Pick` | backend/flaskr/__init__.py:140 | no question exactly when there are no candidates; otherwise one of the candidates |
| `Flaskr.Quizzes` | backend/flaskr/__init__.py:131-145 | Internal exactly when a key is missing; otherwise no question exactly when no row is eligible, else an eligible row of the table |
| `Flaskr.EveryCandidateCanBeDrawn` | backend/flaskr/__init__.py:140 | every eligible row is the answer for some value of the random draw |
| `Flaskr.ClickIgnoresCategoryId` | backend/flaskr/__init__.py:137 | with type "click" the category id is never read: bodies that differ only in it get the same, non-error answer |
| `Flaskr.QuizOverWhenAllAsked` | backend/flaskr/__init__.py:137-140 | over all categories with every id already asked, the answer is no question |

## Left out

- A negative id in the path of `DELETE /questions/<id>` or `GET /categories/<id>/questions` is answered
  404 by the route's `int` converter before any handler runs. The model takes path ids as `nat` and does
  not model that routing answer.
- HTTP plumbing is not modelled. This covers routing, the CORS headers (`backend/flaskr/__init__.py:16-23`),
  JSON parsing and `jsonify`. A query parameter or body is an input value. A missing or non-integer `page`
  is `None`, and a missing JSON body is `None`. Dictionary keys are modelled as integers; `jsonify` would
  turn them into strings.
- JSON values are typed: `question` and `answer` are strings, and `category`, `difficulty`, `id` and
  `previous_questions` are integers. A body field of another JSON type, or a `searchTerm` of `null`, is not modelled.
- The database layer is an in-memory store. This covers SQLAlchemy sessions, `query.get`, `filter_by`,
  `insert()` and `delete()`. Unordered `.all()` results are returned in store order. Persistence failures are
  not modelled, so `GetCategories` never answers Internal.
- `Flaskr.Search` treats `%`, `_` and `\` in the term as plain characters. SQL `ilike` treats `%` and `_` as
  wildcards, and PostgreSQL treats backslash as the escape character when no `ESCAPE` clause is given.
  Case folding is ASCII only, where the database follows its locale.
- `random.randint` is a caller-supplied natural number `draw`. The index is `draw % |candidates|`. The model
  says which rows can be drawn, not with what probability.
- The error handlers' message strings (`backend/flaskr/__init__.py:153-163`) are left out. Only the status
  they carry is modelled.
- The module constant `QUESTIONS_PER_PAGE` is not used by the handler. The handler's local `per_page`
  gives the same page size of 10.
- `backend/test_flaskr.py` is not modelled. It needs a live database. `models.py` is not part of this model.
