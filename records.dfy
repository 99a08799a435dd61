/**
 * The two tables of the trivia database and the queries the route handlers run on them:
 * lookup by primary key, filtering, ordering by id, and the id-to-type category dictionary.
 */
module Records {
  import opened Wrappers
  import Seqs

  /** One row of the questions table. */
  datatype Question = Question(id: int, question: string, answer: string, category: int, difficulty: int)

  /** One row of the categories table; `kind` holds the column the database calls `type`. */
  datatype Category = Category(id: int, kind: string)

  /** No two rows share a primary key. */
  ghost predicate UniqueIds(qs: seq<Question>)
  {
    forall i, j | 0 <= i < j < |qs| :: qs[i].id != qs[j].id
  }

  ghost predicate UniqueCategoryIds(cs: seq<Category>)
  {
    forall i, j | 0 <= i < j < |cs| :: cs[i].id != cs[j].id
  }

  // ---------------------------------------------------------------- lookups

  /** `Question.query.get(id)`: the row with that primary key, or nothing. */
  function FindQuestion(qs: seq<Question>, id: int): (r: Option<Question>)
    ensures r.Some? ==> r.value in qs && r.value.id == id
    ensures r.None? <==> forall q | q in qs :: q.id != id
  {
    if qs == [] then None
    else if qs[0].id == id then Some(qs[0])
    else FindQuestion(qs[1..], id)
  }

  /** `Category.query.get(id)`: the row with that primary key, or nothing. */
  function FindCategory(cs: seq<Category>, id: int): (r: Option<Category>)
    ensures r.Some? ==> r.value in cs && r.value.id == id
    ensures r.None? <==> forall c | c in cs :: c.id != id
  {
    if cs == [] then None
    else if cs[0].id == id then Some(cs[0])
    else FindCategory(cs[1..], id)
  }

  /** Under unique keys the lookup returns the one row that carries the key. */
  lemma FindQuestionUnique(qs: seq<Question>, q: Question)
    requires UniqueIds(qs) && q in qs
    ensures FindQuestion(qs, q.id) == Some(q)
  {
  }

  lemma FindCategoryUnique(cs: seq<Category>, c: Category)
    requires UniqueCategoryIds(cs) && c in cs
    ensures FindCategory(cs, c.id) == Some(c)
  {
  }

  // ---------------------------------------------------------------- filters

  /** `filter_by(category=id)`: the questions filed under that category value, in table order. */
  function InCategory(qs: seq<Question>, categoryId: int): (r: seq<Question>)
    ensures forall q :: q in r <==> q in qs && q.category == categoryId
  {
    Seqs.Filter(qs, (q: Question) => q.category == categoryId)
  }

  /** The table after the row keyed `id` is deleted. */
  function RemoveById(qs: seq<Question>, id: int): (r: seq<Question>)
    ensures forall q :: q in r <==> q in qs && q.id != id
  {
    Seqs.Filter(qs, (q: Question) => q.id != id)
  }

  /** A question appended to the table is listed last under its own category. */
  lemma InCategorySnoc(qs: seq<Question>, q: Question)
    ensures InCategory(qs + [q], q.category) == InCategory(qs, q.category) + [q]
  {
  }

  /** After a delete, a lookup of the deleted key finds nothing, and every row with another key is still there. */
  lemma DeletedKeyGone(qs: seq<Question>, id: int)
    ensures FindQuestion(RemoveById(qs, id), id) == None
    ensures forall x | x in qs && x.id != id :: x in RemoveById(qs, id)
  {
  }

  /** Deleting a present key removes exactly that one row: as multisets, the table loses `q` and nothing else. */
  lemma {:induction false} RemoveByIdRemovesOne(qs: seq<Question>, q: Question)
    requires UniqueIds(qs) && q in qs
    ensures multiset(RemoveById(qs, q.id)) + multiset{q} == multiset(qs)
  {
    var n := |qs| - 1;
    var init, last := qs[..n], qs[n];
    assert qs == init + [last];
    Seqs.FilterSnoc(init, last, (x: Question) => x.id != q.id);
    if last == q {
      OthersKeyedApart(qs, q);
      Seqs.FilterKeepsAll(init, (x: Question) => x.id != q.id);
      assert RemoveById(qs, q.id) == init;
    } else {
      var k :| 0 <= k < |qs| && qs[k] == q;
      assert k < n && init[k] == q && last.id != q.id;
      assert RemoveById(qs, q.id) == RemoveById(init, q.id) + [last];
      assert UniqueIds(init);
      RemoveByIdRemovesOne(init, q);
    }
  }

  /** Deleting a present key shrinks the table by exactly one row. */
  lemma RemoveByIdShrinksByOne(qs: seq<Question>, q: Question)
    requires UniqueIds(qs) && q in qs
    ensures |RemoveById(qs, q.id)| == |qs| - 1
  {
    RemoveByIdRemovesOne(qs, q);
    assert |multiset(RemoveById(qs, q.id))| + 1 == |multiset(qs)|;
  }

  /** Under unique keys, the rows in front of the last one all have keys other than the last one's. */
  lemma OthersKeyedApart(qs: seq<Question>, q: Question)
    requires UniqueIds(qs) && qs != [] && q == qs[|qs| - 1]
    ensures forall x | x in qs[..|qs| - 1] :: x.id != q.id
  {
  }

  /** Selecting rows never creates a duplicate key. */
  lemma {:induction false} FilterKeepsUniqueIds(qs: seq<Question>, p: Question -> bool)
    requires UniqueIds(qs)
    ensures UniqueIds(Seqs.Filter(qs, p))
  {
    if qs != [] {
      var n := |qs| - 1;
      var init, last := qs[..n], qs[n];
      assert qs == init + [last];
      FilterKeepsUniqueIds(init, p);
      var head := Seqs.Filter(init, p);
      forall x | x in head ensures x.id != last.id {
        var k :| 0 <= k < n && init[k] == x;
        assert qs[k] == x;
      }
      AppendFreshKeepsUniqueIds(head, last);
    }
  }

  /** Appending a row whose key is not yet used keeps the keys unique. */
  lemma AppendFreshKeepsUniqueIds(qs: seq<Question>, q: Question)
    requires UniqueIds(qs)
    requires forall x | x in qs :: x.id != q.id
    ensures UniqueIds(qs + [q])
  {
  }

  // ---------------------------------------------------------------- order by id

  /** Ascending by id, the order of `order_by(Question.id.asc())`. */
  ghost predicate Ascending(qs: seq<Question>)
  {
    forall i, j | 0 <= i < j < |qs| :: qs[i].id <= qs[j].id
  }

  ghost predicate StrictlyAscending(qs: seq<Question>)
  {
    forall i, j | 0 <= i < j < |qs| :: qs[i].id < qs[j].id
  }

  /** Puts `q` into the ascending sequence `s` in front of the first row whose id is not smaller. */
  function InsertById(q: Question, s: seq<Question>): (r: seq<Question>)
    requires Ascending(s)
    ensures multiset(r) == multiset(s) + multiset{q}
    ensures Ascending(r)
  {
    if s == [] || q.id <= s[0].id then
      AscendingCons(q, s);
      [q] + s
    else
      assert s == [s[0]] + s[1..];
      var rest := InsertById(q, s[1..]);
      InsertedRowsFollowHead(q, s, rest);
      AscendingCons(s[0], rest);
      [s[0]] + rest
  }

  /** A row no larger than every row of an ascending sequence can go in front of it. */
  lemma AscendingCons(x: Question, t: seq<Question>)
    requires Ascending(t)
    requires forall k | 0 <= k < |t| :: x.id <= t[k].id
    ensures Ascending([x] + t)
  {
  }

  /** Every row of `rest`, a rearrangement of the tail of `s` plus `q`, is at least the head of `s`. */
  lemma InsertedRowsFollowHead(q: Question, s: seq<Question>, rest: seq<Question>)
    requires Ascending(s) && s != [] && q.id > s[0].id
    requires multiset(rest) == multiset(s[1..]) + multiset{q}
    ensures forall k | 0 <= k < |rest| :: s[0].id <= rest[k].id
  {
    forall k | 0 <= k < |rest| ensures s[0].id <= rest[k].id {
      assert rest[k] in multiset(rest);
      if rest[k] != q {
        assert rest[k] in multiset(s[1..]);
        var m :| 0 <= m < |s[1..]| && s[1..][m] == rest[k];
        assert s[m + 1] == rest[k];
      }
    }
  }

  /** The table ordered by ascending id: an ascending permutation of its rows. */
  function SortById(qs: seq<Question>): (r: seq<Question>)
    ensures multiset(r) == multiset(qs)
    ensures |r| == |qs|
    ensures Ascending(r)
  {
    if qs == [] then []
    else
      assert qs == [qs[0]] + qs[1..];
      InsertById(qs[0], SortById(qs[1..]))
  }

  /** When the inserted id is new, insertion keeps the order strict. */
  lemma {:induction false} InsertByIdStrict(q: Question, s: seq<Question>)
    requires StrictlyAscending(s)
    requires forall x | x in s :: x.id != q.id
    ensures Ascending(s) && StrictlyAscending(InsertById(q, s))
  {
    if s != [] && q.id > s[0].id {
      InsertByIdStrict(q, s[1..]);
      var rest := InsertById(q, s[1..]);
      forall k | 0 <= k < |rest| ensures s[0].id < rest[k].id {
        assert rest[k] in multiset(rest);
      }
    }
  }

  /** With unique keys the id order is strict, so ids identify positions of the ordered table. */
  lemma {:induction false} SortByIdStrict(qs: seq<Question>)
    requires UniqueIds(qs)
    ensures StrictlyAscending(SortById(qs))
  {
    if qs != [] {
      var tail := qs[1..];
      SortByIdStrict(tail);
      var sorted := SortById(tail);
      forall x | x in sorted ensures x.id != qs[0].id {
        assert x in multiset(tail);
        var k :| 0 <= k < |tail| && tail[k] == x;
        assert qs[k + 1] == x;
      }
      InsertByIdStrict(qs[0], sorted);
    }
  }

  // ---------------------------------------------------------------- category dictionary

  /** The dictionary `{id: type}` filled row by row; a later row overwrites an earlier one with the same id. */
  function CategoryMap(cs: seq<Category>): (m: map<int, string>)
    ensures m.Keys == set c | c in cs :: c.id
  {
    if cs == [] then map[]
    else
      var init, last := cs[..|cs| - 1], cs[|cs| - 1];
      assert cs == init + [last];
      CategoryMap(init)[last.id := last.kind]
  }

  /** Under unique category ids every category is mapped to its own type. */
  lemma {:induction false} CategoryMapValues(cs: seq<Category>, c: Category)
    requires UniqueCategoryIds(cs) && c in cs
    ensures c.id in CategoryMap(cs) && CategoryMap(cs)[c.id] == c.kind
  {
    var n := |cs| - 1;
    var init, last := cs[..n], cs[n];
    assert cs == init + [last];
    if c != last {
      var k :| 0 <= k < n && init[k] == c;
      assert cs[k] == c;
      CategoryMapValues(init, c);
    }
  }

  /** The loop of `get_categories` (and of `get_questions`) that fills the dictionary. */
  method BuildCategoryMap(cs: seq<Category>) returns (m: map<int, string>)
    ensures m == CategoryMap(cs)
  {
    m := map[];
    var i := 0;
    while i < |cs|
      invariant 0 <= i <= |cs|
      invariant m == CategoryMap(cs[..i])
    {
      assert cs[..i + 1][..i] == cs[..i];
      m := m[cs[i].id := cs[i].kind];
      i := i + 1;
    }
    assert cs[..i] == cs;
  }

  // ---------------------------------------------------------------- primary key sequence

  /** A key larger than every key in the table: where the table's id sequence stands. */
  function NextFreeId(qs: seq<Question>): (n: int)
    ensures forall q | q in qs :: q.id < n
  {
    if qs == [] then 1
    else
      var rest := NextFreeId(qs[1..]);
      assert qs == [qs[0]] + qs[1..];
      if qs[0].id + 1 > rest then qs[0].id + 1 else rest
  }
}
