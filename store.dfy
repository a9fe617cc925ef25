/** The database as the ORM presents it: one map per table, from primary
    key to record, and the next key each table's sequence hands out.
    `Valid()` collects the constraints the schema enforces. */
module Store {
  import opened Results
  import opened Models

  class Database {
    var users: map<nat, User>
    var categories: map<nat, Category>
    var photos: map<nat, Photo>
    var rewards: map<nat, Reward>
    var documents: map<nat, Document>
    var comments: map<nat, Comment>
    var likes: map<nat, Like>
    var requests: map<nat, RepresentativeRequest>
    var featured: map<nat, FeaturedPhoto>

    var nextUserId: nat
    var nextCategoryId: nat
    var nextPhotoId: nat
    var nextRewardId: nat
    var nextDocumentId: nat
    var nextCommentId: nat
    var nextLikeId: nat
    var nextRequestId: nat
    var nextFeaturedId: nat

    // One predicate per table, each reading only the fields it is about,
    // so that a write to one table leaves the others' provably intact.
    // Each states that every key is below the table's sequence value, and
    // the table's unique columns, validators and foreign keys.

    ghost predicate UsersOk()
      reads this`users, this`nextUserId
    {
      (forall k :: k in users ==> k < nextUserId) && EmailsUnique(users) && UsernamesUnique(users)
    }

    ghost predicate CategoriesOk()
      reads this`categories, this`nextCategoryId
    {
      (forall k :: k in categories ==> k < nextCategoryId) && CategoryNamesUnique(categories)
    }

    ghost predicate PhotosOk()
      reads this`photos, this`nextPhotoId
    {
      forall k :: k in photos ==> k < nextPhotoId
    }

    ghost predicate RewardsOk()
      reads this`rewards, this`nextRewardId
    {
      forall k :: k in rewards ==> k < nextRewardId
    }

    ghost predicate DocumentsOk()
      reads this`documents, this`nextDocumentId
    {
      forall k :: k in documents ==> k < nextDocumentId
    }

    /** Every stored file passed the extension validator.  Kept apart from
        `Valid()`: only the writes to the documents table need it. */
    ghost predicate FilesAllowed()
      reads this`documents
    {
      forall k :: k in documents ==> AllowedDocumentFile(documents[k].file)
    }

    ghost predicate CommentsOk()
      reads this`comments, this`nextCommentId
    {
      forall k :: k in comments ==> k < nextCommentId
    }

    ghost predicate LikesOk()
      reads this`likes, this`nextLikeId
    {
      (forall k :: k in likes ==> k < nextLikeId) && LikesUnique(likes)
    }

    ghost predicate RequestsOk()
      reads this`requests, this`nextRequestId, this`users
    {
      forall k :: k in requests ==> k < nextRequestId && requests[k].user in users
    }

    /** At most one row per photo (the OneToOneField), and only for stored photos. */
    ghost predicate FeaturedOk()
      reads this`featured, this`nextFeaturedId, this`photos
    {
      (forall k :: k in featured ==> k < nextFeaturedId && featured[k].photo in photos) && OnePerPhoto(featured)
    }

    ghost predicate Valid()
      reads this
    {
      && UsersOk() && CategoriesOk() && PhotosOk() && RewardsOk() && DocumentsOk()
      && CommentsOk() && LikesOk() && RequestsOk() && FeaturedOk()
    }

    /** An empty database. */
    constructor ()
      ensures Valid() && FilesAllowed()
      ensures users == map[] && categories == map[] && photos == map[] && rewards == map[]
      ensures documents == map[] && comments == map[] && likes == map[] && requests == map[]
      ensures featured == map[]
    {
      users, categories, photos, rewards, documents := map[], map[], map[], map[], map[];
      comments, likes, requests, featured := map[], map[], map[], map[];
      nextUserId, nextCategoryId, nextPhotoId, nextRewardId, nextDocumentId := 0, 0, 0, 0, 0;
      nextCommentId, nextLikeId, nextRequestId, nextFeaturedId := 0, 0, 0, 0;
    }

    // ORM writes: `Model.objects.create(...)` takes the next key of the
    // table's sequence; `save()` on a loaded row replaces it.

    method InsertUser(u: User) returns (id: nat)
      requires Valid() && !EmailTaken(users, u.email) && !UsernameTaken(users, u.username)
      modifies this`users, this`nextUserId
      ensures Valid()
      ensures id == old(nextUserId) && id !in old(users) && users == old(users)[id := u]
    {
      id := nextUserId;
      users := users[id := u];
      nextUserId := nextUserId + 1;
    }

    /** Saves a user row whose unique columns are unchanged. */
    method SaveUser(id: nat, u: User)
      requires Valid() && id in users && u.email == users[id].email && u.username == users[id].username
      modifies this`users
      ensures Valid()
      ensures users == old(users)[id := u]
    {
      users := users[id := u];
    }

    method InsertCategory(c: Category) returns (id: nat)
      requires Valid() && !NameTakenByOther(categories, c.name, None)
      modifies this`categories, this`nextCategoryId
      ensures Valid()
      ensures id == old(nextCategoryId) && id !in old(categories) && categories == old(categories)[id := c]
    {
      id := nextCategoryId;
      categories := categories[id := c];
      nextCategoryId := nextCategoryId + 1;
    }

    /** Saves a category row under a name no other row has. */
    method SaveCategory(id: nat, c: Category)
      requires Valid() && id in categories && !NameTakenByOther(categories, c.name, Some(id))
      modifies this`categories
      ensures Valid()
      ensures categories == old(categories)[id := c]
    {
      categories := categories[id := c];
    }

    method InsertReward(rw: Reward) returns (id: nat)
      requires Valid()
      modifies this`rewards, this`nextRewardId
      ensures Valid()
      ensures id == old(nextRewardId) && id !in old(rewards) && rewards == old(rewards)[id := rw]
    {
      id := nextRewardId;
      rewards := rewards[id := rw];
      nextRewardId := nextRewardId + 1;
    }

    method SaveReward(id: nat, rw: Reward)
      requires Valid() && id in rewards
      modifies this`rewards
      ensures Valid()
      ensures rewards == old(rewards)[id := rw]
    {
      rewards := rewards[id := rw];
    }

    method InsertDocument(d: Document) returns (id: nat)
      requires Valid() && FilesAllowed() && AllowedDocumentFile(d.file)
      modifies this`documents, this`nextDocumentId
      ensures Valid() && FilesAllowed()
      ensures id == old(nextDocumentId) && id !in old(documents) && documents == old(documents)[id := d]
    {
      id := nextDocumentId;
      documents := documents[id := d];
      nextDocumentId := nextDocumentId + 1;
    }

    /** Saves a document row whose file is unchanged. */
    method SaveDocument(id: nat, d: Document)
      requires Valid() && FilesAllowed() && id in documents && d.file == documents[id].file
      modifies this`documents
      ensures Valid() && FilesAllowed()
      ensures documents == old(documents)[id := d]
    {
      documents := documents[id := d];
    }

    method InsertComment(c: Comment) returns (id: nat)
      requires Valid()
      modifies this`comments, this`nextCommentId
      ensures Valid()
      ensures id == old(nextCommentId) && id !in old(comments) && comments == old(comments)[id := c]
    {
      id := nextCommentId;
      comments := comments[id := c];
      nextCommentId := nextCommentId + 1;
    }

    method InsertLike(l: Like) returns (id: nat)
      requires Valid() && !HasLike(likes, l.user, l.contentType, l.objectId)
      modifies this`likes, this`nextLikeId
      ensures Valid()
      ensures id == old(nextLikeId) && id !in old(likes) && likes == old(likes)[id := l]
    {
      id := nextLikeId;
      InsertLikeKeepsUnique(likes, id, l);
      likes := likes[id := l];
      nextLikeId := nextLikeId + 1;
    }

    method InsertRequest(q: RepresentativeRequest) returns (id: nat)
      requires Valid() && q.user in users
      modifies this`requests, this`nextRequestId
      ensures Valid()
      ensures id == old(nextRequestId) && id !in old(requests) && requests == old(requests)[id := q]
    {
      id := nextRequestId;
      requests := requests[id := q];
      nextRequestId := nextRequestId + 1;
    }

    /** Saves a request row for the same user. */
    method SaveRequest(id: nat, q: RepresentativeRequest)
      requires Valid() && id in requests && q.user == requests[id].user
      modifies this`requests
      ensures Valid()
      ensures requests == old(requests)[id := q]
    {
      requests := requests[id := q];
    }

    /** Saves a FeaturedPhoto row for the same photo. */
    method SaveFeaturedRow(id: nat, row: FeaturedPhoto)
      requires Valid() && id in featured && row.photo == featured[id].photo
      modifies this`featured
      ensures Valid()
      ensures featured == old(featured)[id := row]
    {
      featured := featured[id := row];
    }

    // Bulk UPDATEs: the whole table replaced by one with the same keys.

    /** Rewrites the users table, leaving the unique columns as they were. */
    method SetUsers(rows: map<nat, User>)
      requires Valid() && rows.Keys == users.Keys
      requires forall k :: k in rows ==> rows[k].email == users[k].email && rows[k].username == users[k].username
      modifies this`users
      ensures Valid()
      ensures users == rows
    {
      users := rows;
    }

    method SetPhotos(rows: map<nat, Photo>)
      requires Valid() && rows.Keys == photos.Keys
      modifies this`photos
      ensures Valid()
      ensures photos == rows
    {
      photos := rows;
    }

    /** Rewrites the documents table, leaving every file as it was. */
    method SetDocuments(rows: map<nat, Document>)
      requires Valid() && FilesAllowed() && rows.Keys == documents.Keys
      requires forall k :: k in rows ==> rows[k].file == documents[k].file
      modifies this`documents
      ensures Valid() && FilesAllowed()
      ensures documents == rows
    {
      SameFilesAllowed(documents, rows);
      documents := rows;
    }

    /** Rewrites the requests table, leaving every requester as it was. */
    method SetRequests(rows: map<nat, RepresentativeRequest>)
      requires Valid() && rows.Keys == requests.Keys
      requires forall k :: k in rows ==> rows[k].user == requests[k].user
      modifies this`requests
      ensures Valid()
      ensures requests == rows
    {
      requests := rows;
    }

    /** The request's user is a row of the users table. */
    predicate Knows(actor: Actor)
      reads this
    {
      actor.Member? ==> actor.id in users
    }

    /** `model_class.objects.get(id=objectId)` finds a row. */
    predicate ObjectExists(kind: TargetKind, objectId: nat)
      reads this
    {
      match kind
      case PhotoKind => objectId in photos
      case RewardKind => objectId in rewards
      case DocumentKind => objectId in documents
      case CommentKind => objectId in comments
      case LikeKind => objectId in likes
      case CategoryKind => objectId in categories
      case UserKind => objectId in users
      case RequestKind => objectId in requests
      case FeaturedKind => objectId in featured
    }
  }

  // ---------------------------------------------------------------------
  // Bulk UPDATE and the loops over query results

  /** The table after an UPDATE of the selected rows by `f`; selected keys
      that are not rows are ignored. */
  function UpdateWhere<T>(rows: map<nat, T>, selected: set<nat>, f: T -> T): (r: map<nat, T>)
    ensures r.Keys == rows.Keys
    ensures forall k :: k in rows && k !in selected ==> r[k] == rows[k]
    ensures forall k :: k in rows && k in selected ==> r[k] == f(rows[k])
  {
    map k | k in rows :: if k in selected then f(rows[k]) else rows[k]
  }

  /** An update whose assignment is idempotent can be repeated to no effect. */
  lemma UpdateWhereIdempotent<T>(rows: map<nat, T>, selected: set<nat>, f: T -> T)
    requires forall x :: f(f(x)) == f(x)
    ensures UpdateWhere(UpdateWhere(rows, selected, f), selected, f) == UpdateWhere(rows, selected, f)
  {
    var once := UpdateWhere(rows, selected, f);
    var twice := UpdateWhere(once, selected, f);
    assert forall k :: k in twice ==> twice[k] == once[k];
  }

  /** Updating the same rows by `f` and then by `g` is updating them by `g`
      alone when `g` overwrites everything `f` sets. */
  lemma UpdateWhereOverwritten<T>(rows: map<nat, T>, selected: set<nat>, f: T -> T, g: T -> T)
    requires forall x :: g(f(x)) == g(x)
    ensures UpdateWhere(UpdateWhere(rows, selected, f), selected, g) == UpdateWhere(rows, selected, g)
  {
    var first := UpdateWhere(rows, selected, f);
    var second := UpdateWhere(first, selected, g);
    assert forall k :: k in second ==> second[k] == UpdateWhere(rows, selected, g)[k];
  }

  /** Selecting one more row writes that row once more; when `f` is
      idempotent the row may already have been selected. */
  lemma UpdateWhereAddOne<T>(rows: map<nat, T>, selected: set<nat>, k: nat, f: T -> T)
    requires k in rows
    requires k !in selected || forall x :: f(f(x)) == f(x)
    ensures UpdateWhere(rows, selected + {k}, f) == UpdateWhere(rows, selected, f)[k := f(UpdateWhere(rows, selected, f)[k])]
  {
  }

  lemma UpdateWhereNothing<T>(rows: map<nat, T>, f: T -> T)
    ensures UpdateWhere(rows, {}, f) == rows
  {
  }

  /** Keys outside the table do not change what an update does. */
  lemma SelectionWithinTable<T>(rows: map<nat, T>, selected: set<nat>, f: T -> T)
    ensures UpdateWhere(rows, selected * rows.Keys, f) == UpdateWhere(rows, selected, f)
  {
  }

  /** The bookkeeping of a loop that takes elements out of `todo` into
      `done` until `all` is handled. */
  lemma TakeOne(all: set<nat>, todo: set<nat>, done: set<nat>, id: nat)
    requires todo <= all && done == all - todo
    ensures id in todo ==> |todo - {id}| < |todo| && todo - {id} <= all && done + {id} == all - (todo - {id})
    ensures todo == {} ==> done == all
  {
  }
}
