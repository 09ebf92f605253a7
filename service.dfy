/**
 * The article service: create, read, list, search, versioned update and soft
 * delete over the document store. Each operation is specified by a function
 * from the store's documents to an outcome (`Step`), and the `ArticleService`
 * class performs it on a live store and an `Article` object, proved equal to
 * that outcome.
 */
module Service {
  import opened Common
  import opened Strings
  import opened Requests
  import opened Domain
  import opened Query
  import opened Store
  import opened Errors
  import opened Dto

  /** What a write operation returns, and the documents the store then holds. */
  datatype Step<T> = Step(result: Result<T>, docs: Docs)

  // ---------------------------------------------------------------------------
  // Search
  // ---------------------------------------------------------------------------

  /** The clause each optional criterion contributes. */
  function AuthorClause(author: string): Pred { AuthorEqIc(author) }
  function KeywordClause(keyword: string): Pred { KeywordEqIc(keyword) }
  function FromClause(fromPublishDate: Date): Pred { After(fromPublishDate - 1) }
  function ToClause(toPublishDate: Date): Pred { Before(toPublishDate + 1) }

  /**
   * What a search request asks for, stated directly: a live article, having
   * the author and the keyword (ignoring case) when they are given, published
   * on or after the from-date and on or before the to-date when they are given.
   */
  predicate Matches(req: SearchArticleRequest, a: ArticleDocument) {
    && !a.deleted
    && (req.author.Some? ==> AnyEqualsIgnoreCase(a.authors, req.author.value))
    && (req.keyword.Some? ==> AnyEqualsIgnoreCase(a.keywords, req.keyword.value))
    && (req.fromPublishDate.Some? ==> req.fromPublishDate.value <= a.publishDate)
    && (req.toPublishDate.Some? ==> a.publishDate <= req.toPublishDate.value)
  }

  /**
   * The search predicate: not deleted, then author, keyword, from-date and
   * to-date clauses for the criteria that are present. The strict date
   * comparisons against the day before and the day after make both bounds
   * inclusive.
   */
  function CreateSearchQuery(req: SearchArticleRequest): (p: Pred)
    ensures forall a :: Eval(p, a) <==> Matches(req, a)
  {
    var b0 := Builder(NotDeleted);
    var b1 := b0.NotNullAnd(AuthorClause, req.author);
    var b2 := b1.NotNullAnd(KeywordClause, req.keyword);
    var b3 := b2.NotNullAnd(FromClause, req.fromPublishDate);
    var b4 := b3.NotNullAnd(ToClause, req.toPublishDate);
    assert forall a :: Eval(b4.Build(), a) <==> Matches(req, a) by {
      forall a ensures Eval(b4.Build(), a) <==> Matches(req, a) {
        NotNullAndEval(b0, AuthorClause, req.author, a);
        NotNullAndEval(b1, KeywordClause, req.keyword, a);
        NotNullAndEval(b2, FromClause, req.fromPublishDate, a);
        NotNullAndEval(b3, ToClause, req.toPublishDate, a);
      }
    }
    b4.Build()
  }

  /** The criteria of a request as optional clauses, in the order the query adds them. */
  function SearchClauses(req: SearchArticleRequest): seq<Option<Pred>> {
    [ if req.author.Some? then Some(AuthorClause(req.author.value)) else None,
      if req.keyword.Some? then Some(KeywordClause(req.keyword.value)) else None,
      if req.fromPublishDate.Some? then Some(FromClause(req.fromPublishDate.value)) else None,
      if req.toPublishDate.Some? then Some(ToClause(req.toPublishDate.value)) else None ]
  }

  /**
   * The conjuncts of the search predicate are "not deleted" followed by the
   * present clauses in the order author, keyword, from-date, to-date, and
   * listing the criteria in any other order selects the same articles.
   */
  lemma SearchQueryClauseOrder(req: SearchArticleRequest, reordered: seq<Option<Pred>>, a: ArticleDocument)
    requires multiset(reordered) == multiset(SearchClauses(req))
    ensures Conjuncts(CreateSearchQuery(req)) == [NotDeleted] + Present(SearchClauses(req))
    ensures Eval(CreateSearchQuery(req), a) <==> Eval(Chain(Builder(NotDeleted), reordered).Build(), a)
  {
    SearchQueryIsChain(req);
    ChainConjuncts(Builder(NotDeleted), SearchClauses(req));
    ChainOrderIrrelevant(Builder(NotDeleted), SearchClauses(req), reordered, a);
  }

  /** The search predicate is the builder chain over the request's optional clauses. */
  lemma SearchQueryIsChain(req: SearchArticleRequest)
    ensures CreateSearchQuery(req) == Chain(Builder(NotDeleted), SearchClauses(req)).Build()
  {
    var c := SearchClauses(req);
    var b0 := Builder(NotDeleted);
    var b1 := b0.NotNullAnd(AuthorClause, req.author);
    var b2 := b1.NotNullAnd(KeywordClause, req.keyword);
    var b3 := b2.NotNullAnd(FromClause, req.fromPublishDate);
    var b4 := b3.NotNullAnd(ToClause, req.toPublishDate);
    assert Chain(b0, c) == Chain(b1, c[1..]);
    assert Chain(b1, c[1..]) == Chain(b2, c[1..][1..]);
    assert Chain(b2, c[1..][1..]) == Chain(b3, c[1..][1..][1..]);
    assert Chain(b3, c[1..][1..][1..]) == Chain(b4, c[1..][1..][1..][1..]);
    assert c[1..][1..][1..][1..] == [];
  }

  /** The predicates the service tests expect, clause by clause (2018-12-31 and 2020-01-26 are the shifted bounds). */
  lemma SearchQueriesOfTheTests()
    ensures Conjuncts(CreateSearchQuery(SearchArticleRequest(None, None, None, None))) == [NotDeleted]
    ensures Conjuncts(CreateSearchQuery(SearchArticleRequest(Some("health"), Some("Pulitzer"), None, None)))
            == [NotDeleted, AuthorEqIc("Pulitzer"), KeywordEqIc("health")]
    ensures Conjuncts(CreateSearchQuery(SearchArticleRequest(Some("health"), Some("Pulitzer"), Some(17897), None)))
            == [NotDeleted, AuthorEqIc("Pulitzer"), KeywordEqIc("health"), After(17896)]
    ensures Conjuncts(CreateSearchQuery(SearchArticleRequest(None, Some("Pulitzer"), Some(17897), None)))
            == [NotDeleted, AuthorEqIc("Pulitzer"), After(17896)]
    ensures Conjuncts(CreateSearchQuery(SearchArticleRequest(Some("health"), Some("Pulitzer"), Some(17897), Some(18286))))
            == [NotDeleted, AuthorEqIc("Pulitzer"), KeywordEqIc("health"), After(17896), Before(18287)]
  {
  }

  // ---------------------------------------------------------------------------
  // Reads
  // ---------------------------------------------------------------------------

  /** `getArticle`: the live article filed under `id`, or `NotFound(id)` when it is absent or deleted. */
  function GetArticle(docs: Docs, id: Id): (r: Result<ArticleDocument>)
    ensures r.Ok? <==> id in docs && !docs[id].deleted
    ensures r.Ok? ==> r.value == docs[id]
    ensures r.Err? ==> r.error == NotFound(id)
  {
    match FindActive(docs, id)
    case Some(a) => Ok(a)
    case None => Err(NotFound(id))
  }

  /** `getArticles`: every article that is not deleted. */
  function GetArticles(docs: Docs): (r: Docs)
    ensures forall id :: id in r <==> id in docs && !docs[id].deleted
    ensures forall id :: id in r ==> r[id] == docs[id]
  {
    FindAllActive(docs)
  }

  /** `searchArticles`: the articles the request's predicate accepts; none of them is deleted. */
  function SearchArticles(docs: Docs, req: SearchArticleRequest): (r: Docs)
    ensures forall id :: id in r <==> id in docs && Matches(req, docs[id])
    ensures forall id :: id in r ==> r[id] == docs[id] && !r[id].deleted
  {
    FindAll(docs, CreateSearchQuery(req))
  }

  /** A search without criteria lists every live article; any search lists a subset of them. */
  lemma SearchWithinListing(docs: Docs, req: SearchArticleRequest)
    ensures SearchArticles(docs, SearchArticleRequest(None, None, None, None)) == GetArticles(docs)
    ensures SearchArticles(docs, req).Keys <= GetArticles(docs).Keys
  {
    var all := SearchArticles(docs, SearchArticleRequest(None, None, None, None));
    assert all.Keys == GetArticles(docs).Keys;
  }

  /**
   * A request with the default dates selects live articles published in the
   * eleven days from ten days before `today` up to `today`, both included.
   */
  lemma DefaultSearchWindow(today: Date, a: ArticleDocument)
    ensures Matches(SearchWithDefaults(None, None, today), a) <==>
            !a.deleted && today - 10 <= a.publishDate <= today
  {
  }

  /**
   * Searching a stored article by author or keyword finds it exactly when
   * one of the labels it was created with equals the term ignoring case.
   */
  lemma SearchFindsCreatedLabels(req: CreateArticleRequest, author: string, keyword: string)
    requires req.Valid()
    ensures AnyEqualsIgnoreCase(NewArticle(req).authors, author) <==>
            exists x :: x in req.authors.value && EqualsIgnoreCase(x, author)
    ensures AnyEqualsIgnoreCase(NewArticle(req).keywords, keyword) <==>
            exists x :: x in req.keywords && EqualsIgnoreCase(x, keyword)
  {
    CaseInsensitiveMatchOnCanonicalForm(req.authors.value, author);
    CaseInsensitiveMatchOnCanonicalForm(req.keywords, keyword);
  }

  // ---------------------------------------------------------------------------
  // Writes, as functions of the stored documents
  // ---------------------------------------------------------------------------

  /** `createArticle`: the factory's article, inserted under `freshId` at `now`. */
  function CreateOutcome(docs: Docs, req: CreateArticleRequest, freshId: Id, now: Instant): (s: Step<ArticleDocument>)
    requires StoreValid(docs) && req.Valid() && freshId !in docs
    ensures StoreValid(s.docs)
  {
    var created := Inserted(NewArticle(req), freshId, now);
    WriteKeepsStoreValid(docs, freshId, created);
    Step(Ok(created), docs[freshId := created])
  }

  /**
   * `updateArticle`: a missing or deleted article is `NotFound`; a stored
   * version not below the requested one is `Outdated`; otherwise the updated
   * article is saved.
   */
  function UpdateOutcome(docs: Docs, id: Id, req: UpdateArticleRequest, now: Instant): (s: Step<ArticleDocument>)
    requires StoreValid(docs) && req.Valid()
    ensures StoreValid(s.docs)
  {
    match GetArticle(docs, id)
    case Err(e) => Step(Err(e), docs)
    case Ok(articleInDb) =>
      if articleInDb.version.value >= req.version.value then
        Step(Err(Outdated(articleInDb.version.value)), docs)
      else
        var saved := Saved(Updated(articleInDb, req), articleInDb, now);
        WriteKeepsStoreValid(docs, id, saved);
        Step(Ok(saved), docs[id := saved])
  }

  /** `deleteArticle`: a missing or deleted article is `NotFound`; otherwise it is saved marked deleted. */
  function DeleteOutcome(docs: Docs, id: Id, now: Instant): (s: Step<()>)
    requires StoreValid(docs)
    ensures StoreValid(s.docs)
  {
    match GetArticle(docs, id)
    case Err(e) => Step(Err(e), docs)
    case Ok(articleInDb) =>
      var saved := Saved(Deleted(articleInDb), articleInDb, now);
      WriteKeepsStoreValid(docs, id, saved);
      Step(Ok(()), docs[id := saved])
  }

  // ---------------------------------------------------------------------------
  // What the writes promise
  // ---------------------------------------------------------------------------

  /**
   * A created article is the factory's article as inserted: readable under
   * its new id, at version 0, created and modified at `now`, holding the
   * request's header, short description, text and publish date and its labels
   * in canonical form; nothing else in the store changes.
   */
  lemma CreateThenGet(docs: Docs, req: CreateArticleRequest, freshId: Id, now: Instant)
    requires StoreValid(docs) && req.Valid() && freshId !in docs
    ensures var s := CreateOutcome(docs, req, freshId, now);
            && s.result.Ok?
            && s.result.value == Inserted(NewArticle(req), freshId, now)
            && GetArticle(s.docs, freshId) == s.result
            && s.result.value.header == req.header.value
            && s.result.value.shortDescription == req.shortDescription.value
            && s.result.value.text == req.text.value
            && s.result.value.publishDate == req.publishDate.value
            && s.result.value.version == Some(0)
            && FromArticle(s.result.value).version == Some(0)
            && FromArticle(s.result.value).id == Some(freshId)
            && s.result.value.createdAt == s.result.value.lastModifiedAt == Some(now)
            && s.result.value.authors == SortAndCapitalize(req.authors.value)
            && s.result.value.keywords == SortAndCapitalize(req.keywords)
            && s.docs.Keys == docs.Keys + {freshId}
            && (forall k :: k in docs ==> s.docs[k] == docs[k])
  {
  }

  /**
   * The three outcomes of an update. `NotFound` exactly when the article is
   * absent or deleted; `Outdated`, carrying the stored version, exactly when
   * it is live and its version is at least the requested one; success
   * otherwise, saving the updated article one version further. A failure
   * leaves the store unchanged.
   */
  lemma UpdateOutcomes(docs: Docs, id: Id, req: UpdateArticleRequest, now: Instant)
    requires StoreValid(docs) && req.Valid()
    ensures var s := UpdateOutcome(docs, id, req, now);
            && (s.result == Err(NotFound(id)) <==> !(id in docs && !docs[id].deleted))
            && (s.result.Err? && s.result.error.Outdated? <==>
                  id in docs && !docs[id].deleted && docs[id].version.value >= req.version.value)
            && (s.result.Err? && s.result.error.Outdated? ==> s.result.error == Outdated(docs[id].version.value))
            && (s.result.Ok? <==>
                  id in docs && !docs[id].deleted && docs[id].version.value < req.version.value)
            && (s.result.Err? ==> s.docs == docs)
            && (s.result.Ok? ==>
                  && s.result.value == Saved(Updated(docs[id], req), docs[id], now)
                  && s.docs == docs[id := s.result.value])
  {
  }

  /**
   * After a successful update the article is readable with the new content;
   * its id, creation time and deletion mark are those stored before, and its
   * new version lies above the old one and at most at the requested one.
   */
  lemma UpdateThenGet(docs: Docs, id: Id, req: UpdateArticleRequest, now: Instant)
    requires StoreValid(docs) && req.Valid()
    ensures var s := UpdateOutcome(docs, id, req, now);
            s.result.Ok? ==>
              && s.result.value == Saved(Updated(docs[id], req), docs[id], now)
              && GetArticle(s.docs, id) == s.result
              && s.result.value.id == Some(id)
              && s.result.value.createdAt == docs[id].createdAt
              && !s.result.value.deleted
              && s.result.value.header == req.header.value
              && s.result.value.shortDescription == req.shortDescription.value
              && s.result.value.text == req.text.value
              && s.result.value.publishDate == req.publishDate.value
              && s.result.value.authors == SortAndCapitalize(req.authors.value)
              && s.result.value.keywords == SortAndCapitalize(req.keywords)
              && docs[id].version.value < s.result.value.version.value <= req.version.value
  {
  }

  /**
   * The update cases of the service tests: stored version 1 or 2 against
   * requested version 1 is outdated with that message, and stored version 1
   * against requested version 2 succeeds at version 2.
   */
  lemma UpdateVersionExamples(docs: Docs, id: Id, req: UpdateArticleRequest, now: Instant)
    requires StoreValid(docs) && req.Valid()
    requires id in docs && !docs[id].deleted
    ensures docs[id].version == Some(1) && req.version == Some(1) ==>
              UpdateOutcome(docs, id, req, now).result == Err(Outdated(1))
    ensures docs[id].version == Some(2) && req.version == Some(1) ==>
              UpdateOutcome(docs, id, req, now).result == Err(Outdated(2))
    ensures docs[id].version == Some(1) && req.version == Some(2) ==>
              UpdateOutcome(docs, id, req, now).result.Ok? &&
              UpdateOutcome(docs, id, req, now).result.value.version == Some(2)
  {
  }

  /**
   * A delete of a live article keeps the document, marked deleted and one
   * version further, and from then on it cannot be read, updated or deleted:
   * each reports `NotFound` and changes nothing.
   */
  lemma DeleteThenGone(docs: Docs, id: Id, req: UpdateArticleRequest, now: Instant, later: Instant)
    requires StoreValid(docs) && req.Valid()
    ensures var s := DeleteOutcome(docs, id, now);
            && (s.result.Err? <==> !(id in docs && !docs[id].deleted))
            && (s.result.Err? ==> s.result.error == NotFound(id) && s.docs == docs)
            && (s.result.Ok? ==>
                  && s.docs == docs[id := Saved(Deleted(docs[id]), docs[id], now)]
                  && s.docs[id].deleted
                  && s.docs[id].version.value == docs[id].version.value + 1
                  && GetArticle(s.docs, id) == Err(NotFound(id))
                  && id !in GetArticles(s.docs)
                  && DeleteOutcome(s.docs, id, later) == Step(Err(NotFound(id)), s.docs)
                  && UpdateOutcome(s.docs, id, req, later) == Step(Err(NotFound(id)), s.docs))
  {
  }

  /**
   * Updates and deletes touch only the article they name, never drop a
   * document and never lower a version.
   */
  lemma UpdateKeepsHistory(docs: Docs, id: Id, req: UpdateArticleRequest, now: Instant)
    requires StoreValid(docs) && req.Valid()
    ensures var u := UpdateOutcome(docs, id, req, now);
            && u.docs.Keys == docs.Keys
            && (forall k :: k in docs && k != id ==> u.docs[k] == docs[k])
            && (forall k :: k in docs ==> u.docs[k].version.value >= docs[k].version.value)
            && (forall k :: k in docs ==> u.docs[k].createdAt == docs[k].createdAt)
  {
    var u := UpdateOutcome(docs, id, req, now);
    if u.result.Ok? {
      var saved := Saved(Updated(docs[id], req), docs[id], now);
      assert u.docs == docs[id := saved];
      assert saved.createdAt == docs[id].createdAt;
    }
  }

  /** The same holds of deletes. */
  lemma DeleteKeepsHistory(docs: Docs, id: Id, now: Instant)
    requires StoreValid(docs)
    ensures var d := DeleteOutcome(docs, id, now);
            && d.docs.Keys == docs.Keys
            && (forall k :: k in docs && k != id ==> d.docs[k] == docs[k])
            && (forall k :: k in docs ==> d.docs[k].version.value >= docs[k].version.value)
            && (forall k :: k in docs ==> d.docs[k].createdAt == docs[k].createdAt)
  {
    var d := DeleteOutcome(docs, id, now);
    if d.result.Ok? {
      assert d.docs == docs[id := Saved(Deleted(docs[id]), docs[id], now)];
    }
  }

  // ---------------------------------------------------------------------------
  // The end-to-end search fixture
  // ---------------------------------------------------------------------------

  /** An article of the end-to-end fixture: created from its request and inserted under `id`. */
  function FixtureArticle(id: Id, header: string, shortDescription: string, text: string,
                          authors: set<string>, keywords: set<string>, publishDate: Date, now: Instant): (a: ArticleDocument)
    requires 0 < |header| <= MaxHeaderLength && header[0] > ' '
    requires 0 < |shortDescription| && shortDescription[0] > ' '
    requires 0 < |text| && text[0] > ' '
    requires authors != {}
    ensures !a.deleted && a.publishDate == publishDate
    ensures a.authors == SortAndCapitalize(authors) && a.keywords == SortAndCapitalize(keywords)
  {
    var req := CreateArticleRequest(Some(header), Some(shortDescription), Some(text), Some(publishDate), Some(authors), keywords);
    Inserted(NewArticle(req), id, now)
  }

  function FirstFixtureArticle(now: Instant): ArticleDocument {
    FixtureArticle("1", "header1", "shortDescription1", "text1", {"author1", "author2"}, {"keyword1", "keyword2"}, 18140, now)
  }

  function SecondFixtureArticle(now: Instant): ArticleDocument {
    FixtureArticle("2", "header2", "shortDescription2", "text2", {"author1", "author3"}, {"keyword1", "keyword3"}, 18262, now)
  }

  /** A label given at creation is found by a search for it. */
  lemma CreatedLabelFound(labels: set<string>, s: string)
    requires s in labels
    ensures AnyEqualsIgnoreCase(SortAndCapitalize(labels), s)
  {
    CaseInsensitiveMatchOnCanonicalForm(labels, s);
    assert EqualsIgnoreCase(s, s);
  }

  /** The first fixture article: live, by author1 and not author3, about keyword1, published 2019-09-01. */
  lemma FixtureFirstArticle(now: Instant)
    ensures var a := FirstFixtureArticle(now);
            && !a.deleted && a.publishDate == 18140
            && AnyEqualsIgnoreCase(a.authors, "author1")
            && !AnyEqualsIgnoreCase(a.authors, "author3")
            && AnyEqualsIgnoreCase(a.keywords, "keyword1")
  {
    CreatedLabelFound({"author1", "author2"}, "author1");
    CreatedLabelFound({"keyword1", "keyword2"}, "keyword1");
    Author3NotAmong();
  }

  /** The second fixture article: live, by author1 and author3, about keyword1, published 2020-01-01. */
  lemma FixtureSecondArticle(now: Instant)
    ensures var a := SecondFixtureArticle(now);
            && !a.deleted && a.publishDate == 18262
            && AnyEqualsIgnoreCase(a.authors, "author1")
            && AnyEqualsIgnoreCase(a.authors, "author3")
            && AnyEqualsIgnoreCase(a.keywords, "keyword1")
  {
    CreatedLabelFound({"author1", "author3"}, "author1");
    CreatedLabelFound({"author1", "author3"}, "author3");
    CreatedLabelFound({"keyword1", "keyword3"}, "keyword1");
  }

  /** Neither author1 nor author2 matches author3, so their canonical list does not either. */
  lemma Author3NotAmong()
    ensures !AnyEqualsIgnoreCase(SortAndCapitalize({"author1", "author2"}), "author3")
  {
    var authors := {"author1", "author2"};
    CaseInsensitiveMatchOnCanonicalForm(authors, "author3");
    assert UpperChar("author1"[6]) != UpperChar("author3"[6]);
    assert UpperChar("author2"[6]) != UpperChar("author3"[6]);
    forall x | x in authors ensures !EqualsIgnoreCase(x, "author3") {
      assert x == "author1" || x == "author2";
    }
  }

  /**
   * The end-to-end searches, over a store holding two live articles like the
   * fixture's: published 2019-09-01 by author1 (not author3) and 2020-01-01 by
   * author1 and author3, both about keyword1. Keyword1 by author3 finds the
   * second; keyword1 by author1 from 2019-12-12 finds the second; author1
   * between 2019-01-12 and 2020-12-12 finds both, with or without keyword1.
   */
  lemma EndToEndSearches(docs: Docs)
    requires docs.Keys == {"1", "2"}
    requires var a := docs["1"];
             && !a.deleted && a.publishDate == 18140
             && AnyEqualsIgnoreCase(a.authors, "author1")
             && !AnyEqualsIgnoreCase(a.authors, "author3")
             && AnyEqualsIgnoreCase(a.keywords, "keyword1")
    requires var a := docs["2"];
             && !a.deleted && a.publishDate == 18262
             && AnyEqualsIgnoreCase(a.authors, "author1")
             && AnyEqualsIgnoreCase(a.authors, "author3")
             && AnyEqualsIgnoreCase(a.keywords, "keyword1")
    ensures SearchArticles(docs, SearchArticleRequest(Some("keyword1"), Some("author3"), None, None)).Keys == {"2"}
    ensures SearchArticles(docs, SearchArticleRequest(Some("keyword1"), Some("author1"), Some(18242), None)).Keys == {"2"}
    ensures SearchArticles(docs, SearchArticleRequest(None, Some("author1"), Some(17908), Some(18608))).Keys == {"1", "2"}
    ensures SearchArticles(docs, SearchArticleRequest(Some("keyword1"), Some("author1"), Some(17908), Some(18608))).Keys == {"1", "2"}
  {
    SearchOverTwo(docs, SearchArticleRequest(Some("keyword1"), Some("author3"), None, None));
    SearchOverTwo(docs, SearchArticleRequest(Some("keyword1"), Some("author1"), Some(18242), None));
    SearchOverTwo(docs, SearchArticleRequest(None, Some("author1"), Some(17908), Some(18608)));
    SearchOverTwo(docs, SearchArticleRequest(Some("keyword1"), Some("author1"), Some(17908), Some(18608)));
  }

  /** The end-to-end searches over the fixture's own two articles, as the test saves them. */
  lemma FixtureEndToEndSearches(now: Instant)
    ensures var docs := map["1" := FirstFixtureArticle(now), "2" := SecondFixtureArticle(now)];
            && SearchArticles(docs, SearchArticleRequest(Some("keyword1"), Some("author3"), None, None)).Keys == {"2"}
            && SearchArticles(docs, SearchArticleRequest(Some("keyword1"), Some("author1"), Some(18242), None)).Keys == {"2"}
            && SearchArticles(docs, SearchArticleRequest(None, Some("author1"), Some(17908), Some(18608))).Keys == {"1", "2"}
            && SearchArticles(docs, SearchArticleRequest(Some("keyword1"), Some("author1"), Some(17908), Some(18608))).Keys == {"1", "2"}
  {
    FixtureFirstArticle(now);
    FixtureSecondArticle(now);
    EndToEndSearchesOverTwoArticles(FirstFixtureArticle(now), SecondFixtureArticle(now));
  }

  /** `EndToEndSearches` for the store that files `first` under "1" and `second` under "2". */
  lemma EndToEndSearchesOverTwoArticles(first: ArticleDocument, second: ArticleDocument)
    requires && !first.deleted && first.publishDate == 18140
             && AnyEqualsIgnoreCase(first.authors, "author1")
             && !AnyEqualsIgnoreCase(first.authors, "author3")
             && AnyEqualsIgnoreCase(first.keywords, "keyword1")
    requires && !second.deleted && second.publishDate == 18262
             && AnyEqualsIgnoreCase(second.authors, "author1")
             && AnyEqualsIgnoreCase(second.authors, "author3")
             && AnyEqualsIgnoreCase(second.keywords, "keyword1")
    ensures var docs := map["1" := first, "2" := second];
            && SearchArticles(docs, SearchArticleRequest(Some("keyword1"), Some("author3"), None, None)).Keys == {"2"}
            && SearchArticles(docs, SearchArticleRequest(Some("keyword1"), Some("author1"), Some(18242), None)).Keys == {"2"}
            && SearchArticles(docs, SearchArticleRequest(None, Some("author1"), Some(17908), Some(18608))).Keys == {"1", "2"}
            && SearchArticles(docs, SearchArticleRequest(Some("keyword1"), Some("author1"), Some(17908), Some(18608))).Keys == {"1", "2"}
  {
    var docs := map["1" := first, "2" := second];
    assert docs.Keys == {"1", "2"};
    EndToEndSearches(docs);
  }

  /** Over a store of two documents, a search returns those of the two that match. */
  lemma SearchOverTwo(docs: Docs, req: SearchArticleRequest)
    requires docs.Keys == {"1", "2"}
    ensures SearchArticles(docs, req).Keys ==
            (if Matches(req, docs["1"]) then {"1"} else {}) + (if Matches(req, docs["2"]) then {"2"} else {})
  {
  }

  // ---------------------------------------------------------------------------
  // The service object
  // ---------------------------------------------------------------------------

  /** The service over one live store; its writes change only the store. */
  class ArticleService {
    const articleRepository: ArticleStore

    constructor (articleRepository: ArticleStore)
      ensures this.articleRepository == articleRepository
    {
      this.articleRepository := articleRepository;
    }

    /** Builds the article from the request and inserts it. */
    method CreateArticle(req: CreateArticleRequest, freshId: Id, now: Instant) returns (created: ArticleDocument)
      requires articleRepository.Valid() && req.Valid()
      requires freshId !in articleRepository.docs
      modifies articleRepository
      ensures articleRepository.Valid()
      ensures Step(Ok(created), articleRepository.docs) == CreateOutcome(old(articleRepository.docs), req, freshId, now)
    {
      var article := new Article.FromUpsertArticleRequest(req);
      created := articleRepository.Insert(article.Document(), freshId, now);
    }

    /** Reads the stored article, checks the version, updates the article object in place and saves it. */
    method UpdateArticle(id: Id, req: UpdateArticleRequest, now: Instant) returns (r: Result<ArticleDocument>)
      requires articleRepository.Valid() && req.Valid()
      modifies articleRepository
      ensures articleRepository.Valid()
      ensures Step(r, articleRepository.docs) == UpdateOutcome(old(articleRepository.docs), id, req, now)
    {
      var found := GetArticle(articleRepository.docs, id);
      if found.Err? {
        r := Err(found.error);
      } else {
        var articleInDb := found.value;
        if articleInDb.version.value >= req.version.value {
          r := Err(Outdated(articleInDb.version.value));
        } else {
          var article := new Article.Load(articleInDb);
          var toBeUpdated := article.Update(req);
          var saved := articleRepository.Save(toBeUpdated.Document(), now);
          r := Ok(saved);
        }
      }
    }

    /** Reads the stored article, marks the article object deleted and saves it; yields no value. */
    method DeleteArticle(id: Id, now: Instant) returns (r: Result<()>)
      requires articleRepository.Valid()
      modifies articleRepository
      ensures articleRepository.Valid()
      ensures Step(r, articleRepository.docs) == DeleteOutcome(old(articleRepository.docs), id, now)
    {
      var found := GetArticle(articleRepository.docs, id);
      if found.Err? {
        r := Err(found.error);
      } else {
        var article := new Article.Load(found.value);
        var toBeDeleted := article.Delete();
        var _ := articleRepository.Save(toBeDeleted.Document(), now);
        r := Ok(());
      }
    }
  }
}
