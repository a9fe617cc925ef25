/** The custom managers' query methods, as the sets of keys they select. */
module Managers {
  import opened Results
  import opened Models

  function ApprovedPhotos(photos: map<nat, Photo>): set<nat>
  {
    set id | id in photos && photos[id].isApproved
  }

  function ApprovedDocuments(documents: map<nat, Document>): set<nat>
  {
    set id | id in documents && documents[id].isApproved
  }

  /** The batch of a photo's category (None: the column is null). */
  function CategoryBatch(categories: map<nat, Category>, p: Photo): Option<string>
  {
    if p.category in categories then categories[p.category].batch else None
  }

  /** `PhotoManager.featured()`. */
  function Featured(photos: map<nat, Photo>): (r: set<nat>)
    ensures r <= ApprovedPhotos(photos)
    ensures forall id :: id in photos && photos[id].isFeatured && photos[id].isApproved ==> id in r
    ensures forall id :: id in r ==> photos[id].isFeatured
  {
    set id | id in photos && photos[id].isFeatured && photos[id].isApproved
  }

  /** `PhotoManager.by_batch(batch)`; a None batch selects categories whose
      batch is null. */
  function ByBatch(photos: map<nat, Photo>, categories: map<nat, Category>, batch: Option<string>): (r: set<nat>)
    ensures r <= ApprovedPhotos(photos)
    ensures forall id :: id in r ==> CategoryBatch(categories, photos[id]) == batch
    ensures forall id :: id in photos && photos[id].isApproved && CategoryBatch(categories, photos[id]) == batch ==> id in r
  {
    set id | id in photos && CategoryBatch(categories, photos[id]) == batch && photos[id].isApproved
  }

  /** Created no earlier than `days` days before `now`. */
  predicate CreatedWithin(createdAt: int, now: int, days: int)
  {
    createdAt >= now - days * DAY
  }

  /** `PhotoManager.recent(days)` (the source's default is 30 days; the
      model always takes the look-back as an argument). */
  function RecentPhotos(photos: map<nat, Photo>, now: int, days: int): (r: set<nat>)
    ensures r <= ApprovedPhotos(photos)
    ensures forall id :: id in r <==> id in photos && photos[id].isApproved && photos[id].createdAt >= now - days * DAY
  {
    set id | id in photos && CreatedWithin(photos[id].createdAt, now, days) && photos[id].isApproved
  }

  /** `DocumentManager.by_type(doc_type)`: the stored choice value is
      compared with the argument. */
  function ByType(documents: map<nat, Document>, docType: string): (r: set<nat>)
    ensures r <= ApprovedDocuments(documents)
    ensures forall id :: id in r ==> DocumentTypeName(documents[id].documentType) == docType
  {
    set id | id in documents && DocumentTypeName(documents[id].documentType) == docType && documents[id].isApproved
  }

  /** `DocumentManager.recent(days)` (default 30 days in the source, an
      argument here). */
  function RecentDocuments(documents: map<nat, Document>, now: int, days: int): (r: set<nat>)
    ensures r <= ApprovedDocuments(documents)
    ensures forall id :: id in r <==> id in documents && documents[id].isApproved && documents[id].createdAt >= now - days * DAY
  {
    set id | id in documents && CreatedWithin(documents[id].createdAt, now, days) && documents[id].isApproved
  }

  /** A longer look-back never selects fewer records. */
  lemma RecentMonotone(photos: map<nat, Photo>, documents: map<nat, Document>, now: int, days: int, days': int)
    requires days <= days'
    ensures RecentPhotos(photos, now, days) <= RecentPhotos(photos, now, days')
    ensures RecentDocuments(documents, now, days) <= RecentDocuments(documents, now, days')
  {
    assert days * DAY <= days' * DAY;
  }

  /** The type filter splits the approved documents: each one is selected
      by exactly the by_type call naming its own type. */
  lemma ByTypePartitionsApproved(documents: map<nat, Document>, id: nat, t: DocumentType)
    requires id in ApprovedDocuments(documents)
    ensures id in ByType(documents, DocumentTypeName(t)) <==> documents[id].documentType == t
  {
  }
}
