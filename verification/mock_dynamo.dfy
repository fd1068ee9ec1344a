/** The in-memory article store MockDynamo (internal/storage/dynamoMock.go).

    The Go type keeps its table in a struct and its id counter in a
    package-level variable; here both travel together in one immutable
    `Store`, and every operation returns the store it leaves behind. */
module MockDynamo {
  import opened Wrappers
  import opened Models
  import opened Storage

  /** The value the id counter holds when the program starts. */
  const InitialCounter: Int64 := 1

  /** The Articles table together with the next id to hand out. */
  datatype Store = Store(table: map<Int64, Article>, counter: Int64)

  /** What a lookup returns: the article (zero on failure) and the error slot. */
  datatype Fetched = Fetched(article: Article, err: Option<Error>)

  /** What a create returns: the new store, the assigned id and the error slot. */
  datatype Created = Created(store: Store, id: Int64, err: Option<Error>)

  /** What an update or a delete returns: the new store and the error slot. */
  datatype Outcome = Outcome(store: Store, err: Option<Error>)

  /** Go's map index: a key that is not in the map reads as the zero Article. */
  function Lookup(table: map<Int64, Article>, id: Int64): Article
  {
    if id in table then table[id] else ZeroArticle
  }

  /** The store holds a record under `id` that is not the zero Article; this is
      what the store itself treats as "present". */
  predicate Found(s: Store, id: Int64)
  {
    id in s.table && s.table[id] != ZeroArticle
  }

  /** Every key in the table is an id the counter has already handed out. */
  predicate Valid(s: Store)
  {
    && 1 <= s.counter
    && forall k :: k in s.table ==> 1 <= k < s.counter
  }

  /** The keys among `ks` under which `m` stores exactly `a`. */
  ghost function KeysWith(m: map<Int64, Article>, ks: set<Int64>, a: Article): set<Int64>
  {
    set k | k in ks && k in m && m[k] == a
  }

  /** How many keys of `m` store exactly `a`: the multiplicity `a` must have
      in any listing of the table's values, one per key. */
  ghost function Occurrences(m: map<Int64, Article>, a: Article): nat
  {
    |KeysWith(m, m.Keys, a)|
  }

  /** A new store whose table is empty. */
  function NewMockDynamo(): (s: Store)
    ensures |s.table| == 0
    ensures forall id :: !Found(s, id)
    ensures s.counter == InitialCounter
    ensures Valid(s)
  {
    Store(map[], InitialCounter)
  }

  /** The stored article when the value read under `id` is not the zero
      Article; otherwise the zero Article and ResourceNotFound. */
  function GetArticleByID(s: Store, id: Int64): (r: Fetched)
    ensures r.err == None <==> Found(s, id)
    ensures r.err == None ==> id in s.table && r.article == s.table[id]
    ensures r.err != None ==> r == Fetched(ZeroArticle, Some(ResourceNotFound))
  {
    var article := Lookup(s.table, id);
    if article == ZeroArticle then Fetched(ZeroArticle, Some(ResourceNotFound))
    else Fetched(article, None)
  }

  /** Every value of the table, one per key, in an unspecified order. The
      choice of the next key stands for Go's map iteration order. */
  method GetAllArticles(s: Store) returns (articles: seq<Article>, err: Option<Error>)
    ensures err == None
    ensures |articles| == |s.table|
    ensures forall a :: multiset(articles)[a] == Occurrences(s.table, a)
    ensures forall a :: a in articles <==> a in s.table.Values
  {
    articles := [];
    var remaining := s.table.Keys;
    ghost var done: set<Int64> := {};
    while remaining != {}
      invariant done !! remaining && done + remaining == s.table.Keys
      invariant |articles| == |done|
      invariant forall a :: multiset(articles)[a] == |KeysWith(s.table, done, a)|
      decreases remaining
    {
      var k :| k in remaining;
      forall a | true
        ensures multiset(articles + [s.table[k]])[a] == |KeysWith(s.table, done + {k}, a)|
      {
        KeysWithInsert(s.table, done, k, a);
      }
      articles := articles + [s.table[k]];
      remaining := remaining - {k};
      done := done + {k};
    }
    assert done == s.table.Keys;
    forall a
      ensures a in articles <==> a in s.table.Values
    {
      OccurrencesPositive(s.table, a);
    }
    err := None;
  }

  /** The table's values whose user id is `userID`, one per key, in an
      unspecified order; empty when no value matches. */
  method GetArticleByUserID(s: Store, userID: Int64) returns (articles: seq<Article>, err: Option<Error>)
    ensures err == None
    ensures forall a :: multiset(articles)[a] == (if a.userID == userID then Occurrences(s.table, a) else 0)
    ensures forall i :: 0 <= i < |articles| ==> articles[i].userID == userID && articles[i] in s.table.Values
    ensures |articles| == 0 <==> forall k :: k in s.table ==> s.table[k].userID != userID
  {
    articles := [];
    var remaining := s.table.Keys;
    ghost var done: set<Int64> := {};
    while remaining != {}
      invariant done !! remaining && done + remaining == s.table.Keys
      invariant ListsFiltered(s.table, done, userID, articles)
      decreases remaining
    {
      var k :| k in remaining;
      var v := s.table[k];
      FilterStep(s.table, done, userID, articles, k);
      if v.userID == userID {
        articles := articles + [v];
      }
      remaining := remaining - {k};
      done := done + {k};
    }
    assert done == s.table.Keys;
    FilteredListing(s.table, userID, articles);
    err := None;
  }

  /** Stores the payload under the current counter value, which becomes the
      article's id, and advances the counter. Never fails. */
  function CreateArticle(s: Store, art: NewArticle): (r: Created)
    ensures r.err == None
    ensures r.id == s.counter
    ensures r.store.table.Keys == s.table.Keys + {r.id}
    ensures r.store.table[r.id] == Article(art.userID, r.id, art.title, art.body)
    ensures forall k :: k in s.table && k != r.id ==> r.store.table[k] == s.table[k]
    ensures s.counter < MaxInt64 ==> r.store.counter == s.counter + 1
    ensures s.counter == MaxInt64 ==> r.store.counter == MinInt64
  {
    var insert := Article(art.userID, s.counter, art.title, art.body);
    Created(Store(s.table[insert.articleID := insert], Increment(s.counter)), insert.articleID, None)
  }

  /** Replaces the record under `id` with `article`, exactly as passed, when
      GetArticleByID finds one; otherwise reports its error and changes nothing. */
  function UpdateArticle(s: Store, id: Int64, article: Article): (r: Outcome)
    ensures r.err == None <==> Found(s, id)
    ensures r.err != None ==> r.err == Some(ResourceNotFound) && r.store == s
    ensures r.store.counter == s.counter
    ensures r.err == None ==>
      && r.store.table.Keys == s.table.Keys
      && r.store.table[id] == article
      && forall k :: k in s.table && k != id ==> r.store.table[k] == s.table[k]
  {
    var fetched := GetArticleByID(s, id);
    if fetched.err != None then Outcome(s, fetched.err)
    else Outcome(s.(table := s.table[id := article]), None)
  }

  /** Removes the record under `id` when GetArticleByID finds one; otherwise
      reports its error and changes nothing. */
  function DeleteArticle(s: Store, id: Int64): (r: Outcome)
    ensures r.err == None <==> Found(s, id)
    ensures r.err != None ==> r.err == Some(ResourceNotFound) && r.store == s
    ensures r.store.counter == s.counter
    ensures r.err == None ==>
      && r.store.table.Keys == s.table.Keys - {id}
      && |r.store.table| == |s.table| - 1
      && forall k :: k in r.store.table ==> r.store.table[k] == s.table[k]
  {
    var fetched := GetArticleByID(s, id);
    if fetched.err != None then Outcome(s, fetched.err)
    else Outcome(s.(table := s.table - {id}), None)
  }

  /** The store after one call on the storage interface. */
  function Step(s: Store, c: Call): (r: Store)
    ensures c.IsQuery() ==> r == s
    ensures !c.Create? ==> r.counter == s.counter
    ensures c.Create? ==> r.counter == Increment(s.counter)
  {
    match c
    case GetByID(_) => s
    case GetAll => s
    case GetByUser(_) => s
    case Create(art) => CreateArticle(s, art).store
    case Update(id, article) => UpdateArticle(s, id, article).store
    case Delete(id) => DeleteArticle(s, id).store
  }

  /** The store after a sequence of calls, applied in order. */
  function Run(s: Store, calls: seq<Call>): Store
    decreases |calls|
  {
    if calls == [] then s else Run(Step(s, calls[0]), calls[1..])
  }

  /** Adding one key to the keys counted adds one occurrence exactly when the
      key stores the article counted. */
  lemma KeysWithInsert(m: map<Int64, Article>, ks: set<Int64>, k: Int64, a: Article)
    requires k in m && k !in ks
    ensures |KeysWith(m, ks + {k}, a)| == |KeysWith(m, ks, a)| + (if m[k] == a then 1 else 0)
  {
    if m[k] == a {
      assert KeysWith(m, ks + {k}, a) == KeysWith(m, ks, a) + {k};
    } else {
      assert KeysWith(m, ks + {k}, a) == KeysWith(m, ks, a);
    }
  }

  /** `articles` holds, for every article of user `userID`, one copy per key
      among `ks` that stores it, and nothing else. */
  ghost predicate ListsFiltered(m: map<Int64, Article>, ks: set<Int64>, userID: Int64, articles: seq<Article>)
  {
    forall a :: multiset(articles)[a] == (if a.userID == userID then |KeysWith(m, ks, a)| else 0)
  }

  /** One iteration of the filter: visiting key `k` appends its value exactly
      when the value belongs to user `userID`. */
  lemma FilterStep(m: map<Int64, Article>, ks: set<Int64>, userID: Int64, articles: seq<Article>, k: Int64)
    requires k in m && k !in ks
    requires ListsFiltered(m, ks, userID, articles)
    ensures ListsFiltered(m, ks + {k}, userID, if m[k].userID == userID then articles + [m[k]] else articles)
  {
    var next := if m[k].userID == userID then articles + [m[k]] else articles;
    forall a: Article
      ensures multiset(next)[a] == (if a.userID == userID then |KeysWith(m, ks + {k}, a)| else 0)
    {
      KeysWithInsert(m, ks, k, a);
    }
  }

  /** What follows from a listing holding, for every article of user
      `userID`, one copy per key that stores it, and nothing else. */
  lemma FilteredListing(m: map<Int64, Article>, userID: Int64, articles: seq<Article>)
    requires ListsFiltered(m, m.Keys, userID, articles)
    ensures forall i :: 0 <= i < |articles| ==> articles[i].userID == userID && articles[i] in m.Values
    ensures |articles| == 0 <==> forall k :: k in m ==> m[k].userID != userID
  {
    forall i | 0 <= i < |articles|
      ensures articles[i].userID == userID && articles[i] in m.Values
    {
      assert articles[i] in multiset(articles);
      OccurrencesPositive(m, articles[i]);
    }
    if |articles| == 0 {
      forall k | k in m
        ensures m[k].userID != userID
      {
        OccurrencesPositive(m, m[k]);
        assert m[k] !in multiset(articles);
      }
    } else {
      assert articles[0] in multiset(articles);
    }
  }

  /** An article occurs in the table's listing exactly when some key stores it. */
  lemma OccurrencesPositive(m: map<Int64, Article>, a: Article)
    ensures Occurrences(m, a) > 0 <==> a in m.Values
  {
    if a in m.Values {
      var k :| k in m && m[k] == a;
      assert k in KeysWith(m, m.Keys, a);
    } else {
      assert KeysWith(m, m.Keys, a) == {};
    }
  }
}
