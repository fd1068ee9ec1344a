/** Properties of the MockDynamo store that relate several calls: the id
    invariant, read-after-write behaviour, and the zero-value lookup quirk. */
module MockDynamoProperties {
  import opened Wrappers
  import opened Models
  import opened Storage
  import opened MockDynamo

  /** The id a create hands out is not yet a key, and the invariant survives
      the create as long as the counter does not overflow. */
  lemma CreatePreservesValid(s: Store, art: NewArticle)
    requires Valid(s)
    requires s.counter < MaxInt64
    ensures CreateArticle(s, art).id !in s.table
    ensures Valid(CreateArticle(s, art).store)
  {
  }

  /** When the counter is at the top of Go's `int` range, the create wraps it
      around to the most negative value and the invariant no longer holds. */
  lemma CreateWrapsAtMax(s: Store, art: NewArticle)
    requires Valid(s)
    requires s.counter == MaxInt64
    ensures CreateArticle(s, art).store.counter == MinInt64
    ensures !Valid(CreateArticle(s, art).store)
    ensures CreateArticle(s, art).id in CreateArticle(s, art).store.table
    ensures CreateArticle(s, art).id > CreateArticle(s, art).store.counter
  {
  }

  /** A created article is never the zero Article, so a lookup of the
      returned id finds exactly the record built from the payload. */
  lemma CreateThenGet(s: Store, art: NewArticle)
    requires s.counter != 0
    ensures GetArticleByID(CreateArticle(s, art).store, CreateArticle(s, art).id)
         == Fetched(Article(art.userID, s.counter, art.title, art.body), None)
  {
  }

  /** Two creates in a row return consecutive, hence strictly increasing, ids. */
  lemma SuccessiveCreatesIncrease(s: Store, first: NewArticle, second: NewArticle)
    requires s.counter < MaxInt64
    ensures CreateArticle(CreateArticle(s, first).store, second).id
         == CreateArticle(s, first).id + 1
  {
  }

  /** After a successful update the lookup reports the new article, unless
      the new article is the zero Article, in which case the key now reads as
      missing although it stays in the table. */
  lemma UpdateThenGet(s: Store, id: Int64, article: Article)
    requires Found(s, id)
    ensures id in UpdateArticle(s, id, article).store.table
    ensures article != ZeroArticle ==>
      GetArticleByID(UpdateArticle(s, id, article).store, id) == Fetched(article, None)
    ensures article == ZeroArticle ==>
      GetArticleByID(UpdateArticle(s, id, article).store, id).err == Some(ResourceNotFound)
  {
  }

  /** After a successful delete the id reads as missing, so a second delete
      of the same id fails and changes nothing. */
  lemma DeleteThenGet(s: Store, id: Int64)
    requires Found(s, id)
    ensures GetArticleByID(DeleteArticle(s, id).store, id).err == Some(ResourceNotFound)
    ensures DeleteArticle(DeleteArticle(s, id).store, id)
         == Outcome(DeleteArticle(s, id).store, Some(ResourceNotFound))
  {
  }

  /** A key mapped to the zero Article answers get, update and delete exactly
      as a key that is absent; only a listing of the whole table tells the two
      stores apart, because it contains the zero Article once more. */
  lemma ZeroEntryLooksAbsent(s: Store, id: Int64, article: Article)
    requires id !in s.table
    ensures var z := s.(table := s.table[id := ZeroArticle]);
      && id in z.table
      && GetArticleByID(z, id) == GetArticleByID(s, id) == Fetched(ZeroArticle, Some(ResourceNotFound))
      && UpdateArticle(z, id, article) == Outcome(z, Some(ResourceNotFound))
      && UpdateArticle(s, id, article) == Outcome(s, Some(ResourceNotFound))
      && DeleteArticle(z, id) == Outcome(z, Some(ResourceNotFound))
      && DeleteArticle(s, id) == Outcome(s, Some(ResourceNotFound))
      && |z.table| == |s.table| + 1
      && Occurrences(z.table, ZeroArticle) == Occurrences(s.table, ZeroArticle) + 1
  {
    var z := s.(table := s.table[id := ZeroArticle]);
    assert KeysWith(z.table, z.table.Keys, ZeroArticle)
        == KeysWith(s.table, s.table.Keys, ZeroArticle) + {id};
  }

  /** Starting from a new store, a create followed by an update with the zero
      Article leaves a key in the table that get, update and delete report
      missing, though the listings still return its zero Article. */
  lemma ZeroUpdateStrandsKey(art: NewArticle)
    ensures var c := CreateArticle(NewMockDynamo(), art);
      var u := UpdateArticle(c.store, c.id, ZeroArticle);
      && u.err == None
      && c.id in u.store.table
      && GetArticleByID(u.store, c.id).err == Some(ResourceNotFound)
      && UpdateArticle(u.store, c.id, ZeroArticle) == Outcome(u.store, Some(ResourceNotFound))
      && DeleteArticle(u.store, c.id) == Outcome(u.store, Some(ResourceNotFound))
      && Occurrences(u.store.table, ZeroArticle) == 1
  {
    var c := CreateArticle(NewMockDynamo(), art);
    var u := UpdateArticle(c.store, c.id, ZeroArticle);
    assert KeysWith(u.store.table, u.store.table.Keys, ZeroArticle) == {c.id};
  }

  /** Update and delete keep every key below the counter. */
  lemma WritesPreserveValid(s: Store, id: Int64, article: Article)
    requires Valid(s)
    ensures Valid(UpdateArticle(s, id, article).store)
    ensures Valid(DeleteArticle(s, id).store)
  {
  }

  /** Any single call keeps the invariant, provided a create does not
      overflow the counter. */
  lemma StepPreservesValid(s: Store, c: Call)
    requires Valid(s)
    requires c.Create? ==> s.counter < MaxInt64
    ensures Valid(Step(s, c))
  {
  }

  /** How many of `calls` are creates: the only calls that advance the counter. */
  function Creates(calls: seq<Call>): nat
  {
    if calls == [] then 0 else (if calls[0].Create? then 1 else 0) + Creates(calls[1..])
  }

  /** Any sequence of calls keeps every key in [1, counter), and the counter
      grows by exactly the number of creates, provided those creates do not
      carry it past the top of Go's `int` range. */
  lemma {:induction false} RunPreservesValid(s: Store, calls: seq<Call>)
    requires Valid(s)
    requires s.counter + Creates(calls) <= MaxInt64
    ensures Valid(Run(s, calls))
    ensures Run(s, calls).counter == s.counter + Creates(calls)
    decreases |calls|
  {
    if calls != [] {
      StepPreservesValid(s, calls[0]);
      RunPreservesValid(Step(s, calls[0]), calls[1..]);
    }
  }

  /** Whatever calls come in between, a later create returns an id strictly
      greater than every key the store held before those calls and every key
      it holds now, as long as their creates cannot overflow the counter. */
  lemma IdsIncreaseAcrossRun(s: Store, calls: seq<Call>, art: NewArticle)
    requires Valid(s)
    requires s.counter + Creates(calls) <= MaxInt64
    ensures CreateArticle(Run(s, calls), art).id >= s.counter
    ensures forall k :: k in s.table ==> k < CreateArticle(Run(s, calls), art).id
    ensures forall k :: k in Run(s, calls).table ==> k < CreateArticle(Run(s, calls), art).id
  {
    RunPreservesValid(s, calls);
  }
}
