/**
 * The document store the service talks to: a map from id to the persisted
 * article. The store assigns ids, timestamps and versions; the id it picks and
 * the current instant are handed in by the caller.
 */
module Store {
  import opened Common
  import opened Domain
  import opened Query

  type Docs = map<Id, ArticleDocument>

  /**
   * What the store keeps true of every document it holds: it is filed under
   * its own id and carries a version counted from 0.
   */
  predicate StoreValid(docs: Docs) {
    forall id :: id in docs ==>
      && docs[id].id == Some(id)
      && docs[id].version.Some?
      && docs[id].version.value >= 0
  }

  /** Filing a document under its own id with a version counted from 0 keeps the store valid. */
  lemma WriteKeepsStoreValid(docs: Docs, id: Id, doc: ArticleDocument)
    requires StoreValid(docs)
    requires doc.id == Some(id) && doc.version.Some? && doc.version.value >= 0
    ensures StoreValid(docs[id := doc])
  {
  }

  /** A first write: id, both timestamps and version 0 are assigned; the rest is kept. */
  function Inserted(doc: ArticleDocument, id: Id, now: Instant): (r: ArticleDocument)
    ensures r.id == Some(id) && r.version == Some(0)
    ensures r.createdAt == Some(now) && r.lastModifiedAt == Some(now)
    ensures r.(id := doc.id, createdAt := doc.createdAt, lastModifiedAt := doc.lastModifiedAt, version := doc.version) == doc
  {
    doc.(id := Some(id), createdAt := Some(now), lastModifiedAt := Some(now), version := Some(0))
  }

  /**
   * A later write of `doc` over the revision `current`: the version moves one
   * past the persisted one and the modification time becomes `now`; the rest
   * of `doc` is written as it is.
   */
  function Saved(doc: ArticleDocument, current: ArticleDocument, now: Instant): (r: ArticleDocument)
    requires current.version.Some?
    ensures r.version == Some(current.version.value + 1)
    ensures r.lastModifiedAt == Some(now)
    ensures r.(version := doc.version, lastModifiedAt := doc.lastModifiedAt) == doc
  {
    doc.(version := Some(current.version.value + 1), lastModifiedAt := Some(now))
  }

  /** `findByIdAndDeletedFalse`: the document filed under `id`, unless it is absent or deleted. */
  function FindActive(docs: Docs, id: Id): (r: Option<ArticleDocument>)
    ensures r.Some? <==> id in docs && !docs[id].deleted
    ensures r.Some? ==> r.value == docs[id]
  {
    if id in docs && !docs[id].deleted then Some(docs[id]) else None
  }

  /** `findAllByDeletedFalse`: every document not marked deleted. */
  function FindAllActive(docs: Docs): (r: Docs)
    ensures forall id :: id in r <==> id in docs && !docs[id].deleted
    ensures forall id :: id in r ==> r[id] == docs[id]
  {
    map id | id in docs && !docs[id].deleted :: docs[id]
  }

  /** `findAll(predicate)`: every document the predicate accepts. */
  function FindAll(docs: Docs, p: Pred): (r: Docs)
    ensures forall id :: id in r <==> id in docs && Eval(p, docs[id])
    ensures forall id :: id in r ==> r[id] == docs[id]
  {
    map id | id in docs && Eval(p, docs[id]) :: docs[id]
  }

  /** The store as the service sees it: a collection of documents changed only by writes. */
  class ArticleStore {
    var docs: Docs

    ghost predicate Valid()
      reads this
    {
      StoreValid(docs)
    }

    constructor ()
      ensures Valid() && docs == map[]
    {
      docs := map[];
    }

    /** `insert`: files a new document under `freshId`, an id the store does not hold yet. */
    method Insert(doc: ArticleDocument, freshId: Id, now: Instant) returns (stored: ArticleDocument)
      requires Valid()
      requires freshId !in docs
      modifies this
      ensures Valid()
      ensures stored == Inserted(doc, freshId, now)
      ensures docs == old(docs)[freshId := stored]
    {
      stored := Inserted(doc, freshId, now);
      docs := docs[freshId := stored];
    }

    /** `save`: writes a new revision of a document the store already holds. */
    method Save(doc: ArticleDocument, now: Instant) returns (saved: ArticleDocument)
      requires Valid()
      requires doc.id.Some? && doc.id.value in docs
      modifies this
      ensures Valid()
      ensures saved == Saved(doc, old(docs)[doc.id.value], now)
      ensures docs == old(docs)[doc.id.value := saved]
    {
      saved := Saved(doc, docs[doc.id.value], now);
      docs := docs[doc.id.value := saved];
    }
  }

  /**
   * Writes never lower a version: after a save, every document keeps its id
   * and the saved one is exactly one version further.
   */
  lemma SaveAdvancesVersion(docs: Docs, doc: ArticleDocument, now: Instant)
    requires StoreValid(docs)
    requires doc.id.Some? && doc.id.value in docs
    ensures var after := docs[doc.id.value := Saved(doc, docs[doc.id.value], now)];
            && StoreValid(after)
            && docs.Keys == after.Keys
            && (forall k :: k in docs ==> after[k].version.value >= docs[k].version.value)
            && after[doc.id.value].version.value == docs[doc.id.value].version.value + 1
  {
  }
}
