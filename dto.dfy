/**
 * The outward view of an article: its content, identity and version, without
 * the deletion mark and the timestamps.
 */
module Dto {
  import opened Common
  import opened Domain

  datatype ArticleDto = ArticleDto(
    id: Option<Id>,
    header: string,
    shortDescription: string,
    text: string,
    publishDate: Date,
    authors: seq<string>,
    keywords: seq<string>,
    version: Option<int>)

  function FromArticle(a: ArticleDocument): ArticleDto {
    ArticleDto(a.id, a.header, a.shortDescription, a.text, a.publishDate, a.authors, a.keywords, a.version)
  }

  /**
   * Two articles have the same view exactly when they agree on id, content
   * (authors and keywords in the same order) and version: these are copied
   * unchanged, and the deletion mark and timestamps are dropped.
   */
  lemma FromArticleKeepsExactlyTheVisibleFields(a: ArticleDocument, b: ArticleDocument)
    ensures FromArticle(a) == FromArticle(b) <==>
              && a.id == b.id
              && a.header == b.header
              && a.shortDescription == b.shortDescription
              && a.text == b.text
              && a.publishDate == b.publishDate
              && a.authors == b.authors
              && a.keywords == b.keywords
              && a.version == b.version
    ensures FromArticle(a) == FromArticle(a.(deleted := b.deleted, createdAt := b.createdAt, lastModifiedAt := b.lastModifiedAt))
  {
  }
}
