/**
 * The article aggregate: its persisted shape, the canonical form of its
 * author and keyword lists, the factory, and the two in-place transitions
 * (update and soft delete) on the mutable `Article` object.
 */
module Domain {
  import opened Common
  import opened Strings
  import opened Requests

  /**
   * One article as the store persists it. `id`, `createdAt`,
   * `lastModifiedAt` and `version` belong to the store and stay `None` until
   * it first writes the article.
   */
  datatype ArticleDocument = ArticleDocument(
    id: Option<Id>,
    header: string,
    deleted: bool,
    shortDescription: string,
    text: string,
    publishDate: Date,
    authors: seq<string>,
    keywords: seq<string>,
    createdAt: Option<Instant>,
    lastModifiedAt: Option<Instant>,
    version: Option<int>)

  /** The constraints declared on the entity's own content fields. */
  predicate ContentValid(a: ArticleDocument) {
    && NotBlank(Some(a.header))
    && |a.header| <= MaxHeaderLength
    && NotBlank(Some(a.shortDescription))
    && NotBlank(Some(a.text))
    && |a.authors| > 0
  }

  /** The two articles differ at most in their content fields. */
  predicate SameBookkeeping(a: ArticleDocument, b: ArticleDocument) {
    && a.id == b.id
    && a.deleted == b.deleted
    && a.createdAt == b.createdAt
    && a.lastModifiedAt == b.lastModifiedAt
    && a.version == b.version
  }

  /**
   * The canonical list form of a set of labels: every element upper-cased,
   * then sorted ascending. Upper-casing happens after the set has collapsed
   * duplicates, so labels differing only in case both survive.
   */
  function SortAndCapitalize(s: set<string>): seq<string> {
    Sort(MapUpper(Enumerate(s)))
  }

  /** The canonical form is sorted, upper-case throughout, and as long as the set. */
  lemma CanonicalFormShape(s: set<string>)
    ensures Sorted(SortAndCapitalize(s))
    ensures forall i :: 0 <= i < |SortAndCapitalize(s)| ==> IsUpper(SortAndCapitalize(s)[i])
    ensures |SortAndCapitalize(s)| == |s|
  {
    EnumerateWalks(s);
    var m := MapUpper(Enumerate(s));
    var r := Sort(m);
    SortSorted(m);
    assert |r| == |multiset(r)| == |multiset(m)| == |m| == |s|;
    forall i | 0 <= i < |r| ensures IsUpper(r[i]) {
      assert r[i] in multiset(m);
    }
  }

  /**
   * The canonical form is a permutation of the upper-cased labels: it holds
   * `y` exactly as many times as `s` holds labels that upper-case to `y`.
   */
  lemma CanonicalFormCounts(s: set<string>, y: string)
    ensures multiset(SortAndCapitalize(s))[y] == |Preimage(s, y)|
  {
    EnumerateWalks(s);
    MapUpperCounts(s, Enumerate(s), y);
    SortSorted(MapUpper(Enumerate(s)));
  }

  /** A label occurs in the canonical form exactly when some label of `s` upper-cases to it. */
  lemma CanonicalFormMembership(s: set<string>, y: string)
    ensures y in SortAndCapitalize(s) <==> exists x :: x in s && Upper(x) == y
  {
    CanonicalFormCounts(s, y);
    if y in SortAndCapitalize(s) {
      var x :| x in Preimage(s, y);
    }
    if exists x :: x in s && Upper(x) == y {
      var x :| x in s && Upper(x) == y;
      assert x in Preimage(s, y);
    }
  }

  /**
   * The order in which the set is walked does not matter: upper-casing and
   * sorting any walk over `s` gives the canonical form.
   */
  lemma CanonicalFormIndependentOfOrder(s: set<string>, e: seq<string>)
    requires Distinct(e)
    requires forall x :: x in e <==> x in s
    ensures Sort(MapUpper(e)) == SortAndCapitalize(s)
  {
    var r := Sort(MapUpper(e));
    SortSorted(MapUpper(e));
    forall y ensures multiset(r)[y] == multiset(SortAndCapitalize(s))[y] {
      MapUpperCounts(s, e, y);
      CanonicalFormCounts(s, y);
    }
    assert multiset(r) == multiset(SortAndCapitalize(s));
    CanonicalFormShape(s);
    SortedUnique(r, SortAndCapitalize(s));
  }

  /**
   * Labels that differ only in case are all kept: when every label of `s`
   * upper-cases to `y`, the canonical form is `y` repeated `|s|` times.
   */
  lemma CanonicalFormKeepsCaseVariants(s: set<string>, y: string)
    requires forall x :: x in s ==> Upper(x) == y
    ensures |SortAndCapitalize(s)| == |s|
    ensures forall i :: 0 <= i < |s| ==> SortAndCapitalize(s)[i] == y
  {
    var r := SortAndCapitalize(s);
    CanonicalFormShape(s);
    assert Preimage(s, y) == s;
    CanonicalFormCounts(s, y);
    AllEqualFromCount(r, y);
  }

  /** `{"a", "A"}` canonicalises to `["A", "A"]`. */
  lemma CanonicalFormOfAAndUpperA()
    ensures SortAndCapitalize({"a", "A"}) == ["A", "A"]
  {
    assert Upper("a") == "A" by {
      assert Upper("a")[0] == 'A';
    }
    assert Upper("A") == "A" by {
      assert Upper("A")[0] == 'A';
    }
    assert "a" != "A" by {
      assert "a"[0] != "A"[0];
    }
    assert |{"a", "A"}| == 2;
    CanonicalFormKeepsCaseVariants({"a", "A"}, "A");
  }

  /** The sample create request's keyword is upper-cased in full: `{"health"}` becomes `["HEALTH"]`. */
  lemma CanonicalFormOfTheSampleKeywords()
    ensures SortAndCapitalize({"health"}) == ["HEALTH"]
  {
    assert Upper("health") == "HEALTH" by {
      assert forall i :: 0 <= i < 6 ==> Upper("health")[i] == "HEALTH"[i];
    }
    assert MapUpper(["health"]) == ["HEALTH"];
    CanonicalFormIndependentOfOrder({"health"}, ["health"]);
  }

  /** The sample create request's authors come out upper-case and in ascending order. */
  lemma CanonicalFormOfTheSampleAuthors()
    ensures SortAndCapitalize({"Cenk Akin", "Pulitzer"}) == ["CENK AKIN", "PULITZER"]
  {
    var authors := ["Cenk Akin", "Pulitzer"];
    assert authors[0] != authors[1] by { assert authors[0][0] != authors[1][0]; }
    UpperOfTheSampleAuthors();
    assert MapUpper(authors) == ["CENK AKIN", "PULITZER"];
    assert Sort(["CENK AKIN", "PULITZER"]) == ["CENK AKIN", "PULITZER"] by {
      assert !Le("PULITZER", "CENK AKIN");
    }
    CanonicalFormIndependentOfOrder({"Cenk Akin", "Pulitzer"}, authors);
  }

  lemma UpperOfTheSampleAuthors()
    ensures Upper("Cenk Akin") == "CENK AKIN"
    ensures Upper("Pulitzer") == "PULITZER"
  {
    assert forall i :: 0 <= i < 9 ==> Upper("Cenk Akin")[i] == "CENK AKIN"[i];
    assert forall i :: 0 <= i < 8 ==> Upper("Pulitzer")[i] == "PULITZER"[i];
  }

  lemma {:induction false} CountAtMostLength(r: seq<string>, y: string)
    ensures multiset(r)[y] <= |r|
  {
    if r != [] {
      assert r == [r[0]] + r[1..];
      CountAtMostLength(r[1..], y);
    }
  }

  lemma {:induction false} AllEqualFromCount(r: seq<string>, y: string)
    requires multiset(r)[y] == |r|
    ensures forall i :: 0 <= i < |r| ==> r[i] == y
  {
    if r != [] {
      assert r == [r[0]] + r[1..];
      assert multiset(r) == multiset{r[0]} + multiset(r[1..]);
      CountAtMostLength(r[1..], y);
      AllEqualFromCount(r[1..], y);
      assert forall i :: 1 <= i < |r| ==> r[i] == r[1..][i - 1];
    }
  }

  /**
   * The factory: a fresh, not deleted article holding the request's content
   * with canonical authors and keywords, and nothing the store assigns.
   */
  function NewArticle(req: CreateArticleRequest): (a: ArticleDocument)
    requires req.Valid()
    ensures !a.deleted
    ensures a.id.None? && a.createdAt.None? && a.lastModifiedAt.None? && a.version.None?
    ensures a.header == req.header.value && a.shortDescription == req.shortDescription.value
    ensures a.text == req.text.value && a.publishDate == req.publishDate.value
    ensures a.authors == SortAndCapitalize(req.authors.value)
    ensures a.keywords == SortAndCapitalize(req.keywords)
    ensures ContentValid(a)
  {
    CanonicalFormShape(req.authors.value);
    ArticleDocument(
      None, req.header.value, false, req.shortDescription.value, req.text.value,
      req.publishDate.value, SortAndCapitalize(req.authors.value), SortAndCapitalize(req.keywords),
      None, None, None)
  }

  /**
   * An update: the six content fields take the request's values (authors and
   * keywords canonicalised); identity, deletion mark, timestamps and version
   * stay, and the request's own version is not used.
   */
  function Updated(a: ArticleDocument, req: UpdateArticleRequest): (r: ArticleDocument)
    requires req.Valid()
    ensures SameBookkeeping(r, a)
    ensures r.header == req.header.value && r.shortDescription == req.shortDescription.value
    ensures r.text == req.text.value && r.publishDate == req.publishDate.value
    ensures r.authors == SortAndCapitalize(req.authors.value)
    ensures r.keywords == SortAndCapitalize(req.keywords)
  {
    a.(header := req.header.value,
       publishDate := req.publishDate.value,
       text := req.text.value,
       shortDescription := req.shortDescription.value,
       authors := SortAndCapitalize(req.authors.value),
       keywords := SortAndCapitalize(req.keywords))
  }

  /**
   * The entity's own constraints hold after an update, whatever the article
   * held before: a validated request only carries valid content.
   */
  lemma UpdatedContentValid(a: ArticleDocument, req: UpdateArticleRequest)
    requires req.Valid()
    ensures ContentValid(Updated(a, req))
  {
    CanonicalFormShape(req.authors.value);
  }

  /** A soft delete: the article is marked deleted and nothing else changes. */
  function Deleted(a: ArticleDocument): (r: ArticleDocument)
    ensures r.deleted
    ensures r.(deleted := a.deleted) == a
  {
    a.(deleted := true)
  }

  /**
   * Nothing of the old content survives an update: two articles with the
   * same bookkeeping fields are equal after the same update, whatever the
   * request's version says.
   */
  lemma UpdateOverwritesContent(a: ArticleDocument, b: ArticleDocument, req: UpdateArticleRequest, v: Option<int>)
    requires req.Valid() && v.Some?
    requires SameBookkeeping(a, b)
    ensures Updated(a, req) == Updated(b, req.(version := v))
  {
  }

  /** Applying the same update twice is the same as applying it once. */
  lemma UpdateIdempotent(a: ArticleDocument, req: UpdateArticleRequest)
    requires req.Valid()
    ensures Updated(Updated(a, req), req) == Updated(a, req)
  {
  }

  /** Deleting twice is the same as deleting once; a deletion survives an update. */
  lemma DeleteIdempotent(a: ArticleDocument, req: UpdateArticleRequest)
    requires req.Valid()
    ensures Deleted(Deleted(a)) == Deleted(a)
    ensures Updated(Deleted(a), req).deleted
  {
  }

  /** The mutable article object the service reads, changes and hands to the store. */
  class Article {
    var id: Option<Id>
    var header: string
    var deleted: bool
    var shortDescription: string
    var text: string
    var publishDate: Date
    var authors: seq<string>
    var keywords: seq<string>
    var createdAt: Option<Instant>
    var lastModifiedAt: Option<Instant>
    var version: Option<int>

    /** The object's current field values, as the store would persist them. */
    function Document(): ArticleDocument
      reads this
    {
      ArticleDocument(id, header, deleted, shortDescription, text, publishDate,
                      authors, keywords, createdAt, lastModifiedAt, version)
    }

    /** The factory: a new, unsaved article built from a create request. */
    constructor FromUpsertArticleRequest(req: CreateArticleRequest)
      requires req.Valid()
      ensures Document() == NewArticle(req)
    {
      var sortedAndCapitalizedAuthors := SortAndCapitalize(req.authors.value);
      var sortedAndCapitalizedKeywords := SortAndCapitalize(req.keywords);
      id := None;
      header := req.header.value;
      publishDate := req.publishDate.value;
      shortDescription := req.shortDescription.value;
      text := req.text.value;
      authors := sortedAndCapitalizedAuthors;
      keywords := sortedAndCapitalizedKeywords;
      deleted := false;
      createdAt := None;
      lastModifiedAt := None;
      version := None;
    }

    /** The object the store materialises from a persisted document. */
    constructor Load(doc: ArticleDocument)
      ensures Document() == doc
    {
      id := doc.id;
      header := doc.header;
      deleted := doc.deleted;
      shortDescription := doc.shortDescription;
      text := doc.text;
      publishDate := doc.publishDate;
      authors := doc.authors;
      keywords := doc.keywords;
      createdAt := doc.createdAt;
      lastModifiedAt := doc.lastModifiedAt;
      version := doc.version;
    }

    /** Overwrites the content fields in place and returns this same object. */
    method Update(req: UpdateArticleRequest) returns (self: Article)
      requires req.Valid()
      modifies this
      ensures self == this
      ensures Document() == Updated(old(Document()), req)
    {
      // The request's content, with authors and keywords canonicalised.
      var updated := Updated(Document(), req);
      header := updated.header;
      publishDate := updated.publishDate;
      text := updated.text;
      shortDescription := updated.shortDescription;
      authors := updated.authors;
      keywords := updated.keywords;
      self := this;
    }

    /** Marks the article deleted in place and returns this same object. */
    method Delete() returns (self: Article)
      modifies this
      ensures self == this
      ensures Document() == Deleted(old(Document()))
    {
      deleted := true;
      self := this;
    }
  }
}
