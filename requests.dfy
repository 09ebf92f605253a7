/**
 * The request shapes the service accepts, with the bean-validation
 * constraints of their fields as validity predicates. Validation itself runs
 * before the service is reached; the service's operations require it.
 */
module Requests {
  import opened Common

  /**
   * `@Size(max = 250)` on the header. The length counts code points; Java
   * counts UTF-16 units, so a character above U+FFFF counts twice there.
   */
  const MaxHeaderLength := 250

  /** How far back the default search window reaches, in days. */
  const DefaultWindowDays := 10

  /**
   * `@NotBlank`: present, and `trim()` leaves something, i.e. at least one
   * character above U+0020.
   */
  predicate NotBlank(s: Option<string>) {
    s.Some? && exists i :: 0 <= i < |s.value| && s.value[i] > ' '
  }

  /** `@NotBlank @Size(max = 250)`. */
  predicate HeaderOk(h: Option<string>) {
    NotBlank(h) && |h.value| <= MaxHeaderLength
  }

  /** `@NotEmpty` on a set: present and holding at least one element. */
  predicate NotEmpty(s: Option<set<string>>) {
    s.Some? && s.value != {}
  }

  /**
   * The body of a create call. `keywords` carries no constraint; it is a set
   * that may be empty (a missing set is not modelled).
   */
  datatype CreateArticleRequest = CreateArticleRequest(
    header: Option<string>,
    shortDescription: Option<string>,
    text: Option<string>,
    publishDate: Option<Date>,
    authors: Option<set<string>>,
    keywords: set<string>)
  {
    predicate Valid() {
      && HeaderOk(header)
      && NotBlank(shortDescription)
      && NotBlank(text)
      && publishDate.Some?
      && NotEmpty(authors)
    }
  }

  /**
   * The body of an update call: an immutable value (every field final) with
   * the same content constraints as a create, plus a required version.
   */
  datatype UpdateArticleRequest = UpdateArticleRequest(
    header: Option<string>,
    shortDescription: Option<string>,
    text: Option<string>,
    publishDate: Option<Date>,
    authors: Option<set<string>>,
    keywords: set<string>,
    version: Option<int>)
  {
    predicate Valid() {
      && HeaderOk(header)
      && NotBlank(shortDescription)
      && NotBlank(text)
      && publishDate.Some?
      && NotEmpty(authors)
      && version.Some?
    }
  }

  /** The optional search criteria; an absent criterion adds no clause. */
  datatype SearchArticleRequest = SearchArticleRequest(
    keyword: Option<string>,
    author: Option<string>,
    fromPublishDate: Option<Date>,
    toPublishDate: Option<Date>)

  /**
   * A search request whose dates take their initialisers: from ten days
   * before `today` up to `today`. `today` stands for `LocalDate.now()`.
   */
  function SearchWithDefaults(keyword: Option<string>, author: Option<string>, today: Date): (r: SearchArticleRequest)
    ensures r.keyword == keyword && r.author == author
    ensures r.fromPublishDate.Some? && r.toPublishDate.Some?
    ensures r.toPublishDate.value == today
    ensures r.toPublishDate.value - r.fromPublishDate.value == DefaultWindowDays
  {
    SearchArticleRequest(keyword, author, Some(today - DefaultWindowDays), Some(today))
  }

  /** The create request of the end-to-end tests. */
  function SampleCreateRequest(): CreateArticleRequest {
    CreateArticleRequest(
      Some("Corona Virus!"), Some("Is it a worldwide threat?"), Some("We should be careful..."),
      Some(18262), Some({"Cenk Akin", "Pulitzer"}), {"health"})
  }

  /**
   * The complete sample request is valid, and leaving out any one of the
   * constrained fields makes it invalid; so do a blank header and one of 251
   * characters.
   */
  lemma CreateRequestConstraints(blank: string, long: string)
    requires |blank| > 0 && forall i :: 0 <= i < |blank| ==> blank[i] == ' '
    requires |long| == MaxHeaderLength + 1 && long[0] == 'x'
    ensures SampleCreateRequest().Valid()
    ensures !SampleCreateRequest().(header := None).Valid()
    ensures !SampleCreateRequest().(shortDescription := None).Valid()
    ensures !SampleCreateRequest().(text := None).Valid()
    ensures !SampleCreateRequest().(publishDate := None).Valid()
    ensures !SampleCreateRequest().(authors := None).Valid()
    ensures !SampleCreateRequest().(authors := Some({})).Valid()
    ensures SampleCreateRequest().(keywords := {}).Valid()
    ensures !SampleCreateRequest().(header := Some(blank)).Valid()
    ensures !SampleCreateRequest().(header := Some(long)).Valid()
  {
    var r := SampleCreateRequest();
    assert r.header.value[0] > ' ';
    assert r.shortDescription.value[0] > ' ';
    assert r.text.value[0] > ' ';
    assert "Cenk Akin" in r.authors.value;
  }

  /** The update request of the service tests, asking for version `version`. */
  function SampleUpdateRequest(version: int): UpdateArticleRequest {
    UpdateArticleRequest(
      Some("Corona Virus!"), Some("Is it a worldwide threat?"), Some("We should be careful..."),
      Some(18262), Some({"Cenk Akin"}), {"health"}, Some(version))
  }

  /**
   * The sample update request is valid, and leaving out the version or any
   * other constrained field makes it invalid; so do a blank header, one of
   * 251 characters and an empty author set. An empty keyword set does not.
   */
  lemma UpdateRequestConstraints(version: int, blank: string, long: string)
    requires |blank| > 0 && forall i :: 0 <= i < |blank| ==> blank[i] == ' '
    requires |long| == MaxHeaderLength + 1 && long[0] == 'x'
    ensures SampleUpdateRequest(version).Valid()
    ensures !SampleUpdateRequest(version).(version := None).Valid()
    ensures !SampleUpdateRequest(version).(header := None).Valid()
    ensures !SampleUpdateRequest(version).(shortDescription := None).Valid()
    ensures !SampleUpdateRequest(version).(text := None).Valid()
    ensures !SampleUpdateRequest(version).(publishDate := None).Valid()
    ensures !SampleUpdateRequest(version).(authors := None).Valid()
    ensures !SampleUpdateRequest(version).(authors := Some({})).Valid()
    ensures SampleUpdateRequest(version).(keywords := {}).Valid()
    ensures !SampleUpdateRequest(version).(header := Some(blank)).Valid()
    ensures !SampleUpdateRequest(version).(header := Some(long)).Valid()
  {
    var r := SampleUpdateRequest(version);
    assert r.header.value[0] > ' ';
    assert r.shortDescription.value[0] > ' ';
    assert r.text.value[0] > ' ';
    assert "Cenk Akin" in r.authors.value;
  }
}
